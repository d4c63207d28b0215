/**
  The key-state table of inputsystem.h (class `InputSystem`, field
  `pressedKeys`). Each key event received from the windowing layer overwrites
  the record for its key; a query answers whether the recorded action is a
  press or a repeat, and default-inserts a zeroed record for a key never seen.
 */
module InputSystems {
  import opened Wrappers

  /** GLFW's key action codes. */
  const GlfwRelease: int := 0
  const GlfwPress: int := 1
  const GlfwRepeat: int := 2

  /** `struct KeyPress`: one key event as delivered by the windowing layer. */
  datatype KeyPress = KeyPress(key: int, scancode: int, action: int, mods: int)

  /** The value-initialised record `pressedKeys[k]` inserts for an unknown key. */
  const ZeroKeyPress := KeyPress(0, 0, 0, 0)

  /** The record `pressedKeys[k]` yields: the stored one, or the zeroed default. */
  function Recorded(m: map<int, KeyPress>, k: int): KeyPress
  {
    if k in m then m[k] else ZeroKeyPress
  }

  /** `action == GLFW_PRESS || action == GLFW_REPEAT`. */
  predicate IsDown(action: int)
  {
    action == GlfwPress || action == GlfwRepeat
  }

  /** The answer `GetKey(k)` gives in a table `m`. */
  function Held(m: map<int, KeyPress>, k: int): (down: bool)
    ensures k !in m ==> !down
    ensures down ==> k in m && m[k].action != GlfwRelease
  {
    IsDown(Recorded(m, k).action)
  }

  /** What reaches the table: a key event (`SetKey`) or a query (`GetKey`). */
  datatype InputOp = KeyEvent(kp: KeyPress) | KeyQuery(key: int)

  /** The table after one operation; a query default-inserts its key. */
  function Step(m: map<int, KeyPress>, op: InputOp): (r: map<int, KeyPress>)
    ensures r.Keys == m.Keys + {if op.KeyEvent? then op.kp.key else op.key}
    ensures forall k :: k != (if op.KeyEvent? then op.kp.key else op.key) ==> Recorded(r, k) == Recorded(m, k)
    ensures op.KeyQuery? ==> forall k :: Held(r, k) == Held(m, k)
  {
    match op
    case KeyEvent(kp) => m[kp.key := kp]
    case KeyQuery(k) => m[k := Recorded(m, k)]
  }

  /** The table after a run of operations, oldest first. */
  function Replay(m: map<int, KeyPress>, ops: seq<InputOp>): map<int, KeyPress>
    decreases |ops|
  {
    if ops == [] then m else Step(Replay(m, ops[..|ops| - 1]), ops[|ops| - 1])
  }

  /** The action of the most recent event for key `k` in `ops`, if there is one. */
  function LastAction(ops: seq<InputOp>, k: int): (a: Option<int>)
    ensures a.Some? ==> exists i :: (
      && 0 <= i < |ops| && ops[i].KeyEvent? && ops[i].kp.key == k && ops[i].kp.action == a.value
      && (forall j :: i < j < |ops| && ops[j].KeyEvent? ==> ops[j].kp.key != k))
    ensures a.None? ==> forall i :: 0 <= i < |ops| && ops[i].KeyEvent? ==> ops[i].kp.key != k
    decreases |ops|
  {
    if ops == [] then None
    else
      var last := ops[|ops| - 1];
      if last.KeyEvent? && last.kp.key == k then Some(last.kp.action)
      else LastAction(ops[..|ops| - 1], k)
  }

  /**
    Whether a key is reported down depends only on the most recent event for
    it: down exactly when that event's action is press or repeat; with no
    event for the key, the answer is the one the table gave before. Queries
    in between change no answer.
   */
  lemma {:induction false} LatestEventDecides(m: map<int, KeyPress>, ops: seq<InputOp>, k: int)
    ensures Held(Replay(m, ops), k) == match LastAction(ops, k)
      case Some(a) => IsDown(a)
      case None => Held(m, k)
    decreases |ops|
  {
    if ops != [] {
      var init := ops[..|ops| - 1];
      var last := ops[|ops| - 1];
      if !(last.KeyEvent? && last.kp.key == k) {
        LatestEventDecides(m, init, k);
        if last.KeyEvent? {
          assert Recorded(Replay(m, ops), k) == Recorded(Replay(m, init), k);
        }
      }
    }
  }

  /**
    After a release event for a key, the key reads as up until a later
    press or repeat event for it, whatever other events and queries follow.
   */
  lemma {:induction false} ReleasedKeyStaysUp(m: map<int, KeyPress>, release: KeyPress, later: seq<InputOp>)
    requires release.action == GlfwRelease
    requires forall i :: 0 <= i < |later| && later[i].KeyEvent? && later[i].kp.key == release.key ==> !IsDown(later[i].kp.action)
    ensures !Held(Replay(m, [KeyEvent(release)] + later), release.key)
    decreases |later|
  {
    var ops := [KeyEvent(release)] + later;
    if later == [] {
      assert ops[..|ops| - 1] == [];
    } else {
      assert ops[..|ops| - 1] == [KeyEvent(release)] + later[..|later| - 1];
      ReleasedKeyStaysUp(m, release, later[..|later| - 1]);
    }
  }

  /** The key-state half of the input singleton. */
  class InputSystem {
    var pressedKeys: map<int, KeyPress>

    /** The singleton as first constructed: no key seen. */
    constructor ()
      ensures pressedKeys == map[]
    {
      pressedKeys := map[];
    }

    /** `SetKey(kp)`: the record for `kp.key` becomes `kp`; every other record stays. */
    method SetKey(kp: KeyPress)
      modifies this
      ensures pressedKeys == Step(old(pressedKeys), KeyEvent(kp))
      ensures kp.key in pressedKeys && pressedKeys[kp.key] == kp
      ensures forall k :: k != kp.key ==> Recorded(pressedKeys, k) == Recorded(old(pressedKeys), k)
    {
      pressedKeys := pressedKeys[kp.key := kp];
    }

    /**
      `GetKey(k)`: true exactly when the recorded action is press or repeat.
      A key never recorded reads as up and is inserted with a zeroed record.
     */
    method GetKey(k: int) returns (down: bool)
      modifies this
      ensures down <==> k in old(pressedKeys) && IsDown(old(pressedKeys)[k].action)
      ensures pressedKeys == Step(old(pressedKeys), KeyQuery(k))
      ensures k in old(pressedKeys) ==> pressedKeys == old(pressedKeys)
      ensures k !in old(pressedKeys) ==> pressedKeys == old(pressedKeys)[k := ZeroKeyPress]
    {
      var action := Recorded(pressedKeys, k).action;
      pressedKeys := pressedKeys[k := Recorded(pressedKeys, k)];
      down := action == GlfwPress || action == GlfwRepeat;
    }

    /** `key_callback_impl(window, key, scancode, action, mods)`: record the event with all four fields. */
    method KeyCallback(key: int, scancode: int, action: int, mods: int)
      modifies this
      ensures pressedKeys == old(pressedKeys)[key := KeyPress(key, scancode, action, mods)]
    {
      SetKey(KeyPress(key, scancode, action, mods));
    }
  }
}
