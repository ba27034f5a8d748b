/** The `pavo` game-state layer (pavo/pavo.h): a stack of game environments,
    each a complete set of flags obtained by laying a partial environment
    over the one below it, and the player's inventory of named item slots. */
module Pavo {
  import opened Wrappers

  /** `pavo_game_mode_t`. */
  datatype GameMode = MainMenu | Ingame | Cinematic | PauseMenu | MapOverlay | Loading

  /** `pavo_interaction_delegate_t`: a callable or `nullptr`. The callable
      itself is opaque; only its identity matters here. */
  datatype Delegate = Null | Callable(id: nat)

  /** `pavo_game_env_t`: every field optional, the delegate possibly null. */
  datatype GameEnv = GameEnv(paused: Option<bool>, canMove: Option<bool>, canRotate: Option<bool>,
                             canLook: Option<bool>, onInteraction: Delegate,
                             cursorVisible: Option<bool>, gameMode: Option<GameMode>)

  /** `pavo_flat_game_env_t`: every field present. */
  datatype FlatEnv = FlatEnv(paused: bool, canMove: bool, canRotate: bool, canLook: bool,
                             onInteraction: Delegate, cursorVisible: bool, gameMode: GameMode)

  /** `std::optional::value_or`. */
  function ValueOr<T>(o: Option<T>, d: T): T
  {
    if o.Some? then o.value else d
  }

  /** `pavo_flat_game_env_t::mergeWith`: each field present in `env` wins,
      every other field keeps `flat`'s value; the delegate is replaced only
      by a non-null one. */
  function MergeWith(flat: FlatEnv, env: GameEnv): FlatEnv
  {
    FlatEnv(ValueOr(env.paused, flat.paused), ValueOr(env.canMove, flat.canMove),
            ValueOr(env.canRotate, flat.canRotate), ValueOr(env.canLook, flat.canLook),
            if env.onInteraction != Null then env.onInteraction else flat.onInteraction,
            ValueOr(env.cursorVisible, flat.cursorVisible), ValueOr(env.gameMode, flat.gameMode))
  }

  /** The partial environment that sets nothing. */
  const Empty: GameEnv := GameEnv(None, None, None, None, Null, None, None)

  /** The flags `Initialize` falls back to: not paused, moving, rotating,
      looking and cursor allowed, in game, no interaction. */
  const Defaults: FlatEnv := FlatEnv(false, true, true, true, Null, true, Ingame)

  /** The environment `Initialize` pushes: `initialEnv` laid over the
      defaults. */
  function InitialEnv(initialEnv: GameEnv): (f: FlatEnv)
    ensures f == MergeWith(Defaults, initialEnv)
  {
    FlatEnv(ValueOr(initialEnv.paused, false), ValueOr(initialEnv.canMove, true),
            ValueOr(initialEnv.canRotate, true), ValueOr(initialEnv.canLook, true),
            if initialEnv.onInteraction != Null then initialEnv.onInteraction else Null,
            ValueOr(initialEnv.cursorVisible, true), ValueOr(initialEnv.gameMode, Ingame))
  }

  /** The partial environment that `upper` laid over `lower` amounts to:
      `upper`'s fields where present, `lower`'s otherwise. */
  function Over(upper: GameEnv, lower: GameEnv): GameEnv
  {
    GameEnv(if upper.paused.Some? then upper.paused else lower.paused,
            if upper.canMove.Some? then upper.canMove else lower.canMove,
            if upper.canRotate.Some? then upper.canRotate else lower.canRotate,
            if upper.canLook.Some? then upper.canLook else lower.canLook,
            if upper.onInteraction != Null then upper.onInteraction else lower.onInteraction,
            if upper.cursorVisible.Some? then upper.cursorVisible else lower.cursorVisible,
            if upper.gameMode.Some? then upper.gameMode else lower.gameMode)
  }

  /** Every field `env` sets is taken from it; every field it leaves unset
      keeps the value below. */
  lemma MergeFields(flat: FlatEnv, env: GameEnv)
    ensures env.paused.Some? ==> MergeWith(flat, env).paused == env.paused.value
    ensures env.paused.None? ==> MergeWith(flat, env).paused == flat.paused
    ensures env.canMove.Some? ==> MergeWith(flat, env).canMove == env.canMove.value
    ensures env.canMove.None? ==> MergeWith(flat, env).canMove == flat.canMove
    ensures env.canRotate.Some? ==> MergeWith(flat, env).canRotate == env.canRotate.value
    ensures env.canRotate.None? ==> MergeWith(flat, env).canRotate == flat.canRotate
    ensures env.canLook.Some? ==> MergeWith(flat, env).canLook == env.canLook.value
    ensures env.canLook.None? ==> MergeWith(flat, env).canLook == flat.canLook
    ensures env.onInteraction != Null ==> MergeWith(flat, env).onInteraction == env.onInteraction
    ensures env.onInteraction == Null ==> MergeWith(flat, env).onInteraction == flat.onInteraction
    ensures env.cursorVisible.Some? ==> MergeWith(flat, env).cursorVisible == env.cursorVisible.value
    ensures env.cursorVisible.None? ==> MergeWith(flat, env).cursorVisible == flat.cursorVisible
    ensures env.gameMode.Some? ==> MergeWith(flat, env).gameMode == env.gameMode.value
    ensures env.gameMode.None? ==> MergeWith(flat, env).gameMode == flat.gameMode
  {
  }

  /** Laying an environment that sets nothing changes nothing. */
  lemma MergeEmpty(flat: FlatEnv)
    ensures MergeWith(flat, Empty) == flat
  {
  }

  /** Laying the same environment twice is laying it once. */
  lemma MergeIdempotent(flat: FlatEnv, env: GameEnv)
    ensures MergeWith(MergeWith(flat, env), env) == MergeWith(flat, env)
  {
  }

  /** Two pushes compose: laying `lower` and then `upper` is laying their
      combination once, so each flat environment on the stack is the bottom
      one with every pushed environment above it combined. */
  lemma MergeCompose(flat: FlatEnv, lower: GameEnv, upper: GameEnv)
    ensures MergeWith(MergeWith(flat, lower), upper) == MergeWith(flat, Over(upper, lower))
  {
  }

  /** A flat environment held by `std::shared_ptr`; the object identity is
      the pointer `envs.remove` compares. */
  class SharedEnv {
    const env: FlatEnv

    constructor (env: FlatEnv)
      ensures this.env == env
    {
      this.env := env;
    }
  }

  /** The caller's `std::shared_ptr<pavo_flat_game_env_t>` that `pushEnv`
      fills and `popEnv` clears. */
  class EnvHandle {
    var ptr: SharedEnv?

    constructor ()
      ensures ptr == null
    {
      ptr := null;
    }
  }

  /** `pavo_slot_t`: an item name and its `unsigned` count. */
  datatype Slot = Slot(name: string, count: nat)

  const Wrap: nat := 0x1_0000_0000

  /** `std::list::remove(x)`: every element equal to `x` taken out, the order
      of the others kept. */
  function Without(s: seq<SharedEnv>, x: SharedEnv?): (r: seq<SharedEnv>)
    ensures |r| <= |s| && forall i :: 0 <= i < |r| ==> r[i] in s && r[i] != x
  {
    if s == [] then [] else (if s[0] == x then [] else [s[0]]) + Without(s[1..], x)
  }

  /** ... and every entry that is not `x` stays. */
  lemma {:induction false} WithoutKeeps(s: seq<SharedEnv>, x: SharedEnv?)
    ensures forall i :: 0 <= i < |s| && s[i] != x ==> s[i] in Without(s, x)
  {
    if s != [] {
      WithoutKeeps(s[1..], x);
      forall i | 0 <= i < |s| && s[i] != x ensures s[i] in Without(s, x) {
        if i > 0 {
          assert s[i] == s[1..][i - 1];
        }
      }
    }
  }

  /** `playerState.remove(slot)`: `pavo_slot_t::operator==` compares names
      only, so every slot of that name goes. */
  function WithoutName(s: seq<Slot>, name: string): (r: seq<Slot>)
    ensures |r| <= |s| && forall x :: x in r <==> x in s && x.name != name
  {
    if s == [] then [] else (if s[0].name == name then [] else [s[0]]) + WithoutName(s[1..], name)
  }

  ghost predicate DistinctEnvs(s: seq<SharedEnv>)
  {
    forall i, j :: 0 <= i < j < |s| ==> s[i] != s[j]
  }

  ghost predicate UniqueNames(s: seq<Slot>)
  {
    forall i, j :: 0 <= i < j < |s| ==> s[i].name != s[j].name
  }

  /** The inventory holds a slot named `name` with a count of at least
      `times`. */
  ghost predicate Holds(s: seq<Slot>, name: string, times: nat)
  {
    exists i :: 0 <= i < |s| && s[i].name == name && s[i].count >= times
  }

  /** The count of `name` in the inventory, 0 if it has no slot. */
  ghost function CountOf(s: seq<Slot>, name: string): nat
  {
    if s == [] then 0 else if s[0].name == name then s[0].count else CountOf(s[1..], name)
  }

  /** Removing an environment that occurs once takes exactly one element
      out; removing one that does not occur changes nothing. */
  lemma {:induction false} WithoutDistinct(s: seq<SharedEnv>, x: SharedEnv?)
    requires DistinctEnvs(s)
    ensures DistinctEnvs(Without(s, x))
    ensures x in s ==> |Without(s, x)| == |s| - 1
    ensures x !in s ==> Without(s, x) == s
  {
    if s != [] {
      DistinctTail(s);
      var r := Without(s[1..], x);
      WithoutDistinct(s[1..], x);
      if s[0] == x {
        assert Without(s, x) == r == s[1..];
      } else {
        assert s[0] !in r;
        assert Without(s, x) == [s[0]] + r;
        DistinctCons(s[0], r);
      }
    }
  }

  lemma DistinctTail(s: seq<SharedEnv>)
    requires DistinctEnvs(s) && s != []
    ensures DistinctEnvs(s[1..]) && s[0] !in s[1..]
  {
    forall i, j | 0 <= i < j < |s[1..]| ensures s[1..][i] != s[1..][j] {
      assert s[1..][i] == s[i + 1] && s[1..][j] == s[j + 1];
    }
  }

  lemma DistinctCons(y: SharedEnv, r: seq<SharedEnv>)
    requires DistinctEnvs(r) && y !in r
    ensures DistinctEnvs([y] + r)
  {
    forall i, j | 0 <= i < j < |[y] + r| ensures ([y] + r)[i] != ([y] + r)[j] {
      if i > 0 {
        assert ([y] + r)[i] == r[i - 1];
      }
      assert ([y] + r)[j] == r[j - 1];
    }
  }

  /** Pushing a new environment and popping it again restores the stack. */
  lemma PushPop(s: seq<SharedEnv>, x: SharedEnv)
    requires x !in s
    ensures Without(s + [x], x) == s
  {
    WithoutAppend(s, x, x);
    WithoutAbsent(s, x);
  }

  lemma {:induction false} WithoutAppend(s: seq<SharedEnv>, y: SharedEnv, x: SharedEnv?)
    ensures Without(s + [y], x) == Without(s, x) + (if y == x then [] else [y])
  {
    if s == [] {
      assert [y][1..] == [];
    } else {
      assert (s + [y])[1..] == s[1..] + [y];
      WithoutAppend(s[1..], y, x);
    }
  }

  lemma {:induction false} WithoutAbsent(s: seq<SharedEnv>, x: SharedEnv?)
    requires x !in s
    ensures Without(s, x) == s
  {
    if s != [] {
      WithoutAbsent(s[1..], x);
    }
  }

  lemma {:induction false} WithoutNameUnique(s: seq<Slot>, name: string)
    requires UniqueNames(s)
    ensures UniqueNames(WithoutName(s, name))
  {
    if s != [] {
      WithoutNameUnique(s[1..], name);
      var r := WithoutName(s[1..], name);
      forall x | x in r ensures x.name != s[0].name {
        var k :| 0 <= k < |s[1..]| && s[1..][k] == x;
        assert s[k + 1] == x;
      }
    }
  }

  /** With unique names, the count of an item is the count of its slot. */
  lemma {:induction false} CountOfSlot(s: seq<Slot>, i: nat)
    requires UniqueNames(s) && i < |s|
    ensures CountOf(s, s[i].name) == s[i].count
  {
    if i > 0 {
      assert s[0].name != s[i].name;
      CountOfSlot(s[1..], i - 1);
    }
  }

  lemma {:induction false} CountOfAbsent(s: seq<Slot>, name: string)
    requires forall i :: 0 <= i < |s| ==> s[i].name != name
    ensures CountOf(s, name) == 0
  {
    if s != [] {
      CountOfAbsent(s[1..], name);
    }
  }

  /** With unique names, holding an item `times` times is having a count of
      at least `times` for it (a missing item counts 0). */
  lemma HoldsCount(s: seq<Slot>, name: string, times: nat)
    requires UniqueNames(s)
    ensures Holds(s, name, times) <==> (exists i :: 0 <= i < |s| && s[i].name == name) && CountOf(s, name) >= times
  {
    if exists i :: 0 <= i < |s| && s[i].name == name {
      var i :| 0 <= i < |s| && s[i].name == name;
      CountOfSlot(s, i);
      if Holds(s, name, times) {
        var j :| 0 <= j < |s| && s[j].name == name && s[j].count >= times;
        assert i == j;
      }
    }
  }

  /** The static members of `pavo_state_t`. */
  class State {
    /** `envs`: the environment stack, top last. */
    var envs: seq<SharedEnv>
    /** `playerState`: the inventory. */
    var playerState: seq<Slot>

    /** Every environment was made by its own `make_shared`, and `addItem`
        never makes a second slot for a name. */
    ghost predicate Valid()
      reads this
    {
      DistinctEnvs(envs) && UniqueNames(playerState) && forall i :: 0 <= i < |playerState| ==> playerState[i].count < Wrap
    }

    /** The statics before `Initialize`: both lists empty. */
    constructor ()
      ensures Valid() && envs == [] && playerState == []
    {
      envs, playerState := [], [];
    }

    /** `Initialize`: pushes `initialEnv` over the defaults. */
    method Initialize(initialEnv: GameEnv)
      requires Valid()
      modifies this
      ensures Valid() && playerState == old(playerState)
      ensures |envs| == |old(envs)| + 1 && envs[..|old(envs)|] == old(envs)
      ensures fresh(envs[|envs| - 1]) && envs[|envs| - 1].env == MergeWith(Defaults, initialEnv)
    {
      var e := new SharedEnv(InitialEnv(initialEnv));
      envs := envs + [e];
    }

    /** `getEnv`: the last environment. The source reads `envs.back()`, which
        needs a non-empty list. */
    function GetEnv(): (e: SharedEnv)
      reads this
      requires |envs| > 0
      ensures e in envs && e == envs[|envs| - 1]
    {
      envs[|envs| - 1]
    }

    /** `pushEnv`: appends `newEnv` laid over the current top, and hands the
        new top back through `slot` (the source's `old`). */
    method PushEnv(newEnv: GameEnv, slot: EnvHandle)
      requires Valid() && |envs| > 0
      modifies this, slot
      ensures Valid() && playerState == old(playerState)
      ensures envs == old(envs) + [slot.ptr] && fresh(slot.ptr)
      ensures slot.ptr == GetEnv() && GetEnv().env == MergeWith(old(GetEnv().env), newEnv)
    {
      var top := new SharedEnv(MergeWith(GetEnv().env, newEnv));
      envs := envs + [top];
      slot.ptr := envs[|envs| - 1];
    }

    /** `popEnv`: asserts that more than one environment is left, removes
        `*slot` (the source's `*old`) from the stack wherever it is, and nulls it. Since every
        environment occurs once, at most one goes and the stack never
        empties. */
    method PopEnv(slot: EnvHandle)
      requires Valid() && |envs| > 1
      modifies this, slot
      ensures Valid() && playerState == old(playerState)
      ensures envs == Without(old(envs), old(slot.ptr)) && slot.ptr == null
      ensures |envs| >= |old(envs)| - 1 >= 1
    {
      WithoutDistinct(envs, slot.ptr);
      envs := Without(envs, slot.ptr);
      slot.ptr := null;
    }

    /** `addItem`: one more of `name` in its slot (the `unsigned` count wraps
        at 2^32), or a new slot holding one at the end. */
    method AddItem(name: string)
      requires Valid()
      modifies this
      ensures Valid() && envs == old(envs)
      ensures CountOf(playerState, name) == (CountOf(old(playerState), name) + 1) % Wrap
      ensures forall other :: other != name ==> CountOf(playerState, other) == CountOf(old(playerState), other)
      ensures (exists i :: 0 <= i < |old(playerState)| && old(playerState)[i].name == name) ==>
                |playerState| == |old(playerState)| && forall i :: 0 <= i < |playerState| ==> playerState[i].name == old(playerState)[i].name
      ensures (forall i :: 0 <= i < |old(playerState)| ==> old(playerState)[i].name != name) ==>
                playerState == old(playerState) + [Slot(name, 1)]
    {
      var i := 0;
      while i < |playerState|
        invariant 0 <= i <= |playerState| && playerState == old(playerState)
        invariant forall k :: 0 <= k < i ==> playerState[k].name != name
      {
        if playerState[i].name == name {
          ghost var before := playerState;
          CountOfSlot(before, i);
          playerState := playerState[i := Slot(name, (playerState[i].count + 1) % Wrap)];
          CountOfSlot(playerState, i);
          forall other | other != name
            ensures CountOf(playerState, other) == CountOf(before, other)
          {
            CountOfUntouched(before, i, playerState[i], other);
          }
          return;
        }
        i := i + 1;
      }
      CountOfAbsent(playerState, name);
      ghost var before := playerState;
      playerState := playerState + [Slot(name, 1)];
      CountOfSlot(playerState, |before|);
      forall other | other != name
        ensures CountOf(playerState, other) == CountOf(before, other)
      {
        CountOfSnoc(before, Slot(name, 1), other);
      }
    }

    /** `hasItemTimes`: some slot is named `name` and holds at least `times`. */
    method HasItemTimes(name: string, times: nat) returns (r: bool)
      ensures r <==> Holds(playerState, name, times)
    {
      var i := 0;
      while i < |playerState|
        invariant 0 <= i <= |playerState|
        invariant forall k :: 0 <= k < i ==> !(playerState[k].name == name && playerState[k].count >= times)
      {
        if playerState[i].name == name && playerState[i].count >= times {
          return true;
        }
        i := i + 1;
      }
      return false;
    }

    /** `hasItem`: at least one of `name`. */
    method HasItem(name: string) returns (r: bool)
      ensures r <==> Holds(playerState, name, 1)
    {
      r := HasItemTimes(name, 1);
    }

    /** `removeItem`: if some slot is named `name`, every slot of that name
        goes, whatever its count, and the result is true. */
    method RemoveItem(name: string) returns (removed: bool)
      requires Valid()
      modifies this
      ensures Valid() && envs == old(envs)
      ensures removed <==> exists i :: 0 <= i < |old(playerState)| && old(playerState)[i].name == name
      ensures playerState == WithoutName(old(playerState), name)
      ensures !Holds(playerState, name, 0) && CountOf(playerState, name) == 0
    {
      var i := 0;
      while i < |playerState|
        invariant 0 <= i <= |playerState| && playerState == old(playerState)
        invariant forall k :: 0 <= k < i ==> playerState[k].name != name
      {
        if playerState[i].name == name {
          WithoutNameUnique(playerState, name);
          playerState := WithoutName(playerState, name);
          CountOfAbsent(playerState, name);
          return true;
        }
        i := i + 1;
      }
      WithoutNameAbsent(playerState, name);
      CountOfAbsent(playerState, name);
      return false;
    }
  }

  lemma {:induction false} WithoutNameAbsent(s: seq<Slot>, name: string)
    requires forall i :: 0 <= i < |s| ==> s[i].name != name
    ensures WithoutName(s, name) == s
  {
    if s != [] {
      WithoutNameAbsent(s[1..], name);
    }
  }

  lemma {:induction false} CountOfUntouched(s: seq<Slot>, i: nat, x: Slot, other: string)
    requires i < |s| && x.name == s[i].name && other != x.name
    ensures CountOf(s[i := x], other) == CountOf(s, other)
  {
    if i > 0 {
      assert s[i := x][1..] == s[1..][i - 1 := x];
      CountOfUntouched(s[1..], i - 1, x, other);
    }
  }

  lemma {:induction false} CountOfSnoc(s: seq<Slot>, x: Slot, other: string)
    requires other != x.name
    ensures CountOf(s + [x], other) == CountOf(s, other)
  {
    if s == [] {
      assert [x][1..] == [];
    } else {
      assert (s + [x])[1..] == s[1..] + [x];
      CountOfSnoc(s[1..], x, other);
    }
  }
}
