/** `p2d::Input`: which keys and mouse buttons are held, and which went down
    or up since the last clear(). Events are a datatype here instead of
    `sf::Event`; mouse motion and the scroll wheel are not modelled. */
module P2dInput {

  datatype Event =
    | KeyPressed(code: int)
    | KeyReleased(code: int)
    | ButtonPressed(code: int)
    | ButtonReleased(code: int)
    | Other                       // any event poll() does not act on here

  /** Whether `e` presses (`down`) or releases a key (`!mouse`) or a mouse
      button (`mouse`). */
  predicate Is(e: Event, mouse: bool, down: bool)
  {
    match e
    case KeyPressed(_) => !mouse && down
    case KeyReleased(_) => !mouse && !down
    case ButtonPressed(_) => mouse && down
    case ButtonReleased(_) => mouse && !down
    case Other => false
  }

  /** std::map::insert({k, true}): adds the entry unless the key is there. */
  function Insert(m: map<int, bool>, k: int): map<int, bool>
  {
    if k in m then m else m[k := true]
  }

  /** The `keys` and `buttons` maps: whether each code is held. */
  datatype Holds = Holds(keys: map<int, bool>, buttons: map<int, bool>)

  /** The `keysDown`, `keysUp`, `buttonsDown` and `buttonsUp` maps. */
  datatype Marks = Marks(keysDown: map<int, bool>, keysUp: map<int, bool>,
                         buttonsDown: map<int, bool>, buttonsUp: map<int, bool>)

  /** What poll does to the held maps: a press sets its code true, a release
      sets it false if it is there. */
  function HoldsAfter(h: Holds, e: Event): Holds
  {
    match e
    case KeyPressed(k) => h.(keys := h.keys[k := true])
    case KeyReleased(k) => if k in h.keys then h.(keys := h.keys[k := false]) else h
    case ButtonPressed(b) => h.(buttons := h.buttons[b := true])
    case ButtonReleased(b) => if b in h.buttons then h.(buttons := h.buttons[b := false]) else h
    case Other => h
  }

  /** What poll does to the down and up maps. */
  function MarksAfter(m: Marks, e: Event): Marks
  {
    match e
    case KeyPressed(k) => m.(keysDown := Insert(m.keysDown, k))
    case KeyReleased(k) => m.(keysUp := Insert(m.keysUp, k))
    case ButtonPressed(b) => m.(buttonsDown := Insert(m.buttonsDown, b))
    case ButtonReleased(b) => m.(buttonsUp := Insert(m.buttonsUp, b))
    case Other => m
  }

  /** A run of polled events, newest last. */
  datatype Log = Start | Then(before: Log, last: Event)

  /** The events of a log, oldest first. */
  function Events(l: Log): seq<Event>
  {
    match l
    case Start => []
    case Then(b, e) => Events(b) + [e]
  }

  /** The held maps after polling the log from empty maps. */
  function HoldsOf(l: Log): Holds
  {
    match l
    case Start => Holds(map[], map[])
    case Then(b, e) => HoldsAfter(HoldsOf(b), e)
  }

  /** The down and up maps after polling the log from empty maps. */
  function MarksOf(l: Log): Marks
  {
    match l
    case Start => Marks(map[], map[], map[], map[])
    case Then(b, e) => MarksAfter(MarksOf(b), e)
  }

  /** One device's held map. */
  function HeldMap(h: Holds, mouse: bool): map<int, bool>
  {
    if mouse then h.buttons else h.keys
  }

  /** One device's down (`down`) or up map. */
  function MarkedMap(m: Marks, mouse: bool, down: bool): map<int, bool>
  {
    if mouse then (if down then m.buttonsDown else m.buttonsUp)
    else (if down then m.keysDown else m.keysUp)
  }

  /** Whether `e` presses or releases code `c` of the device. */
  predicate About(e: Event, mouse: bool, c: int)
  {
    (Is(e, mouse, true) || Is(e, mouse, false)) && e.code == c
  }

  /** Reference definitions. The codes held after `evs`: the last press or
      release of a code decides, and a code never pressed is not held. */
  function Held(evs: seq<Event>, mouse: bool): set<int>
  {
    set c | c in Codes(evs, mouse, true) && LastPress(evs, mouse, c)
  }

  /** Whether the last press or release of code `c` in `evs` is a press. */
  predicate LastPress(evs: seq<Event>, mouse: bool, c: int)
  {
    if evs == [] then false
    else
      var e := evs[|evs| - 1];
      if About(e, mouse, c) then Is(e, mouse, true)
      else LastPress(evs[..|evs| - 1], mouse, c)
  }

  /** The codes pressed (`down`) or released in `evs`. */
  function Codes(evs: seq<Event>, mouse: bool, down: bool): set<int>
  {
    set i | 0 <= i < |evs| && Is(evs[i], mouse, down) :: evs[i].code
  }

  /** The codes a map says true for. */
  function TrueKeys(m: map<int, bool>): set<int>
  {
    set k | k in m && m[k]
  }

  lemma CodesStep(evs: seq<Event>, e: Event, mouse: bool, down: bool)
    ensures Codes(evs + [e], mouse, down) == Codes(evs, mouse, down) + (if Is(e, mouse, down) then {e.code} else {})
  {
    var evs' := evs + [e];
    assert forall i :: 0 <= i < |evs| ==> evs'[i] == evs[i];
    assert evs'[|evs|] == e;
  }

  /** Whether a held map says true for `c`. */
  predicate HeldIn(h: Holds, mouse: bool, c: int)
  {
    c in HeldMap(h, mouse) && HeldMap(h, mouse)[c]
  }

  /** One event: it decides `c` if it is about `c`, and leaves it otherwise. */
  lemma HeldStep(h: Holds, e: Event, mouse: bool, c: int)
    ensures HeldIn(HoldsAfter(h, e), mouse, c) == if About(e, mouse, c) then Is(e, mouse, true) else HeldIn(h, mouse, c)
  {
  }

  lemma LastPressStep(evs: seq<Event>, e: Event, mouse: bool, c: int)
    ensures LastPress(evs + [e], mouse, c) == if About(e, mouse, c) then Is(e, mouse, true) else LastPress(evs, mouse, c)
  {
    assert (evs + [e])[..|evs|] == evs;
  }

  /** One code at a time: the held map says true for `c` exactly when `c` is
      held. */
  lemma {:induction false} HoldsOfAt(l: Log, mouse: bool, c: int)
    ensures HeldIn(HoldsOf(l), mouse, c) <==> (c in Codes(Events(l), mouse, true) && LastPress(Events(l), mouse, c))
  {
    if l.Then? {
      HoldsOfAt(l.before, mouse, c);
      LastPressStep(Events(l.before), l.last, mouse, c);
      CodesStep(Events(l.before), l.last, mouse, true);
      HeldStep(HoldsOf(l.before), l.last, mouse, c);
    }
  }

  /** The held map says true for exactly the codes held. */
  lemma HoldsOfHeld(l: Log, mouse: bool)
    ensures TrueKeys(HeldMap(HoldsOf(l), mouse)) == Held(Events(l), mouse)
  {
    forall c
      ensures c in TrueKeys(HeldMap(HoldsOf(l), mouse)) <==> c in Held(Events(l), mouse)
    {
      HoldsOfAt(l, mouse, c);
    }
  }

  /** A down or up map holds only `true`, for exactly the codes pressed or
      released. */
  lemma {:induction false} MarksOfCodes(l: Log, mouse: bool, down: bool)
    ensures forall k :: k in MarkedMap(MarksOf(l), mouse, down) ==> MarkedMap(MarksOf(l), mouse, down)[k]
    ensures MarkedMap(MarksOf(l), mouse, down).Keys == Codes(Events(l), mouse, down)
  {
    if l.Then? {
      MarksOfCodes(l.before, mouse, down);
      CodesStep(Events(l.before), l.last, mouse, down);
    }
  }

  class Input {
    var keys: map<int, bool>
    var keysDown: map<int, bool>
    var keysUp: map<int, bool>
    var buttons: map<int, bool>
    var buttonsDown: map<int, bool>
    var buttonsUp: map<int, bool>
    var deltaScroll: real

    /** Every event polled so far, and those polled since the last clear(). */
    ghost var seen: Log
    ghost var frame: Log

    /** The maps are what polling `seen`, and `frame` since the last clear(),
        leaves. */
    ghost predicate Valid()
      reads this
    {
      && Holds(keys, buttons) == HoldsOf(seen)
      && Marks(keysDown, keysUp, buttonsDown, buttonsUp) == MarksOf(frame)
    }

    constructor ()
      ensures Valid() && seen == Start && frame == Start
    {
      keys, keysDown, keysUp := map[], map[], map[];
      buttons, buttonsDown, buttonsUp := map[], map[], map[];
      deltaScroll := 0.0;
      seen, frame := Start, Start;
    }

    /** getKey: true while the key is held; a key never seen reads false. */
    function GetKey(k: int): (b: bool)
      reads this
      ensures b ==> k in keys
      ensures Valid() ==> (b <==> k in Held(Events(seen), false))
    {
      HoldsOfHeld(seen, false);
      if k in keys then keys[k] else false
    }

    /** getKeyDown: the key was pressed since the last clear(). */
    function GetKeyDown(k: int): (b: bool)
      reads this
      ensures Valid() ==> (b <==> k in Codes(Events(frame), false, true))
    {
      MarksOfCodes(frame, false, true);
      if k in keysDown then keysDown[k] else false
    }

    /** getKeyUp: the key was released since the last clear(). */
    function GetKeyUp(k: int): (b: bool)
      reads this
      ensures Valid() ==> (b <==> k in Codes(Events(frame), false, false))
    {
      MarksOfCodes(frame, false, false);
      if k in keysUp then keysUp[k] else false
    }

    function GetButton(b: int): (r: bool)
      reads this
      ensures r ==> b in buttons
      ensures Valid() ==> (r <==> b in Held(Events(seen), true))
    {
      HoldsOfHeld(seen, true);
      if b in buttons then buttons[b] else false
    }

    function GetButtonDown(b: int): (r: bool)
      reads this
      ensures Valid() ==> (r <==> b in Codes(Events(frame), true, true))
    {
      MarksOfCodes(frame, true, true);
      if b in buttonsDown then buttonsDown[b] else false
    }

    function GetButtonUp(b: int): (r: bool)
      reads this
      ensures Valid() ==> (r <==> b in Codes(Events(frame), true, false))
    {
      MarksOfCodes(frame, true, false);
      if b in buttonsUp then buttonsUp[b] else false
    }

    /** clear(): forget what went down and up; what is held stays. */
    method Clear()
      requires Valid()
      modifies this
      ensures Valid() && seen == old(seen) && frame == Start
      ensures keysDown == keysUp == buttonsDown == buttonsUp == map[]
      ensures keys == old(keys) && buttons == old(buttons)
      ensures deltaScroll == 0.0
    {
      keysDown, keysUp := map[], map[];
      buttonsDown, buttonsUp := map[], map[];
      deltaScroll := 0.0;
      frame := Start;
    }

    /** poll(e): the key and button branches, whose switch is HoldsAfter and
        MarksAfter. */
    method Poll(e: Event)
      requires Valid()
      modifies this
      ensures Valid() && seen == Then(old(seen), e) && frame == Then(old(frame), e)
      ensures deltaScroll == 0.0
    {
      deltaScroll := 0.0;
      var h := HoldsAfter(Holds(keys, buttons), e);
      var m := MarksAfter(Marks(keysDown, keysUp, buttonsDown, buttonsUp), e);
      keys, buttons := h.keys, h.buttons;
      keysDown, keysUp, buttonsDown, buttonsUp := m.keysDown, m.keysUp, m.buttonsDown, m.buttonsUp;
      assert Holds(keys, buttons) == h && Marks(keysDown, keysUp, buttonsDown, buttonsUp) == m;
      seen := Then(seen, e);
      frame := Then(frame, e);
    }
  }

  /** After a press the code reads held and down; after a release it reads up
      and not held; codes the event is not about read as before. */
  lemma PollReads(seen: seq<Event>, frame: seq<Event>, e: Event, mouse: bool, c: int)
    ensures Is(e, mouse, true) ==> e.code in Held(seen + [e], mouse) && e.code in Codes(frame + [e], mouse, true)
    ensures Is(e, mouse, false) ==> e.code !in Held(seen + [e], mouse) && e.code in Codes(frame + [e], mouse, false)
    ensures !About(e, mouse, c) ==> (c in Held(seen + [e], mouse) <==> c in Held(seen, mouse))
  {
    assert (seen + [e])[..|seen|] == seen;
    CodesStep(seen, e, mouse, true);
    CodesStep(frame, e, mouse, true);
    CodesStep(frame, e, mouse, false);
  }
}
