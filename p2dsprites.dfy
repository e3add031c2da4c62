/** `p2d::SpriteBuffer` and `p2d::Assets`: sprites filed under random
    integer ids drawn from the owner's own `Util`, redrawn until the id is
    not taken. Textures, positions and drawing are not modelled. */
module P2dSprites {
  import opened Bytes
  import opened P2dUtil
  import opened P2dMath

  /** The number of layers a sprite buffer keeps. */
  const Layers: nat := 32

  /** The layer insert() files a sprite under: below 0 goes to 0, 32 and
      above to 31. */
  function LayerOf(layer: i32): (r: nat)
    ensures r < Layers
    ensures r == Clamp(0, Layers as i32 - 1, layer) as int
    ensures 0 <= layer < Layers ==> r == layer
  {
    if layer < 0 then 0 else if layer >= Layers as i32 then Layers - 1 else layer
  }

  /** The part of `atlasSprite` that the buffer touches: its id and the
      batching flag that setID raises. */
  class AtlasSprite {
    var id: i32
    var modified: bool

    /** A sprite starts marked modified. The source leaves its id
        uninitialised; whatever the id holds is the parameter `garbage`. */
    constructor (garbage: i32)
      ensures id == garbage && modified
    {
      id := garbage;
      modified := true;
    }

    /** setID(newID) */
    method SetId(newId: i32)
      modifies this
      ensures id == newId && modified
    {
      id := newId;
      modified := true;
    }
  }

  /** Draws from `u` until an id not in `m` turns up: the loop shared by
      generateID and Assets::unique. The source loops for ever when every
      draw is taken; here the search gives up after `Period` draws with
      `found` false. */
  method FreshKey<T>(u: Util, m: map<i32, T>) returns (found: bool, id: i32, ghost draws: nat)
    modifies u
    ensures 1 <= draws <= Period
    ensures u.lehmer == StateAfter(old(u.lehmer), draws) && id == Draw(old(u.lehmer), draws)
    ensures found <==> id !in m
    ensures forall k :: 1 <= k < draws ==> Draw(old(u.lehmer), k) in m
    ensures !found ==> draws == Period
  {
    ghost var s0 := u.lehmer;
    var raw := u.Random();
    id := ToSigned(raw);
    var tries := 1;
    while id in m && tries < Period
      invariant 1 <= tries <= Period
      invariant u.lehmer == StateAfter(s0, tries) && id == Draw(s0, tries)
      invariant forall k :: 1 <= k < tries ==> Draw(s0, k) in m
      decreases Period - tries
    {
      StateAfterAdd(s0, tries, 1);
      raw := u.Random();
      id := ToSigned(raw);
      tries := tries + 1;
    }
    found := id !in m;
    draws := tries;
  }

  class SpriteBuffer {
    /** sprites[32]: per layer, the sprites by id. */
    const sprites: array<map<i32, AtlasSprite>>
    const util: Util

    ghost predicate Valid()
      reads this
    {
      sprites.Length == Layers
    }

    /** A new buffer has 32 empty layers and a generator at state 0. */
    constructor ()
      ensures Valid() && fresh(sprites) && fresh(util)
      ensures forall l :: 0 <= l < Layers ==> sprites[l] == map[]
      ensures util.lehmer == 0
    {
      sprites := new map<i32, AtlasSprite>[Layers](_ => map[]);
      util := new Util();
    }

    /** generateID(layer): a random id not in that layer, drawn from the
        buffer's generator. */
    method GenerateId(layer: nat) returns (found: bool, id: i32, ghost draws: nat)
      requires Valid() && layer < Layers
      modifies util
      ensures 1 <= draws <= Period
      ensures util.lehmer == StateAfter(old(util.lehmer), draws) && id == Draw(old(util.lehmer), draws)
      ensures found <==> id !in sprites[layer]
      ensures forall k :: 1 <= k < draws ==> Draw(old(util.lehmer), k) in sprites[layer]
      ensures !found ==> draws == Period
    {
      found, id, draws := FreshKey(util, sprites[layer]);
    }

    /** insert(sprite, layer): clamp the layer, give the sprite a fresh id
        and file it under that id; the other layers are untouched. When the
        id is not fresh, std::map::insert leaves the layer as it was. */
    method Insert(sprite: AtlasSprite, layer: i32) returns (ok: bool, ghost found: bool)
      requires Valid()
      modifies sprites, util, sprite
      ensures Valid() && ok && sprite.modified
      ensures var l := LayerOf(layer);
        && (found <==> sprite.id !in old(sprites[l]))
        && sprites[l] == (if found then old(sprites[l])[sprite.id := sprite] else old(sprites[l]))
        && (!found ==> forall k :: 1 <= k <= Period ==> Draw(old(util.lehmer), k) in old(sprites[l]))
      ensures forall l :: 0 <= l < Layers && l != LayerOf(layer) ==> sprites[l] == old(sprites[l])
    {
      var l := layer;
      if l < 0 { l := 0; }
      if l >= 32 { l := 31; }
      assert l as int == LayerOf(layer);
      var id;
      ghost var draws;
      found, id, draws := GenerateId(l as nat);
      sprite.SetId(id);
      if id !in sprites[l] {
        sprites[l] := sprites[l][id := sprite];
      }
      ok := true;
    }
  }

  /** The id bookkeeping of `p2d::Assets`: its own copy of a generator. */
  class Assets {
    const util: Util

    /** Assets(console, util) copies the caller's generator, state and all. */
    constructor (state: bv32)
      ensures util.lehmer == state && fresh(util)
    {
      var u := new Util();
      u.RandomSeed(state);
      util := u;
    }

    /** unique(map): a random key not in `m`, drawn from the assets'
        generator. */
    method Unique<T>(m: map<i32, T>) returns (found: bool, id: i32, ghost draws: nat)
      modifies util
      ensures 1 <= draws <= Period
      ensures util.lehmer == StateAfter(old(util.lehmer), draws) && id == Draw(old(util.lehmer), draws)
      ensures found <==> id !in m
      ensures forall k :: 1 <= k < draws ==> Draw(old(util.lehmer), k) in m
      ensures !found ==> draws == Period
    {
      found, id, draws := FreshKey(util, m);
    }
  }
}
