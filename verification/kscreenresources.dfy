/**
  KScreenResources (kscreenresources.cpp): enabling and disabling one output
  through the KScreen library. The engine keeps one KScreenOutput object per
  output, remembering the rectangle and the priority the output had when the
  object was built, and rewrites the configuration KScreen reports so that
  the outputs that stay on keep their layout and their priorities.

  The KScreen library is two parameters: `current`, the configuration
  GetConfigOperation answers at the moment of the call (None when it fails),
  and `accept`, whether SetConfigOperation succeeds with a configuration.
 */
module KScreenResources {
  import opened Geometry
  import opened OrdMap
  import opened QOutput
  import KScreenOutput

  /** A KScreen configuration: its outputs in the order config->outputs() lists them. */
  type Config = seq<KOutputInfo>

  /** The output map and the identity the next KScreenOutput object receives. */
  datatype KState = KState(outputs: Entries<Output>, nextHandle: nat)

  /**
    Every stored output is a KScreen output whose identity has been handed
    out, and no two stored outputs are the same object.
   */
  ghost predicate Valid(s: KState) {
    Sorted(s.outputs)
    && (forall k :: Contains(s.outputs, k) ==>
          Get(s.outputs, k).value.kind.KScreen? && Get(s.outputs, k).value.kind.handle < s.nextHandle)
    && (forall k1, k2 ::
          (Contains(s.outputs, k1) && Contains(s.outputs, k2) && k1 != k2
           && Get(s.outputs, k1).value.kind.KScreen? && Get(s.outputs, k2).value.kind.KScreen?) ==>
          Get(s.outputs, k1).value.kind.handle != Get(s.outputs, k2).value.kind.handle)
  }

  /** The ids of a configuration, in its order. */
  function Ids(cfg: Config): (ids: seq<nat>)
    ensures |ids| == |cfg|
    ensures forall i :: 0 <= i < |cfg| ==> ids[i] == cfg[i].id
  {
    seq(|cfg|, i requires 0 <= i < |cfg| => cfg[i].id)
  }

  /**
    The position of the first output, in key order, whose name equals `name`
    (QString::compare, case-sensitive; a null name compares as empty), or
    the size of the map when there is none.
   */
  function FirstNamed(m: Entries<Output>, name: string): (i: nat)
    ensures i <= |m|
    ensures i < |m| ==> m[i].1.name.Chars() == name
    ensures forall j :: 0 <= j < i ==> m[j].1.name.Chars() != name
  {
    if |m| == 0 then 0
    else if m[0].1.name.Chars() == name then 0
    else 1 + FirstNamed(m[1..], name)
  }

  /**
    One step of refreshOutputs(config): the object stored under the id of
    `info` is updated in place; failing that, the first object with the
    same name is moved to that id and updated; failing that, a new object
    is built from `info`.
   */
  function RefreshOne(s: KState, info: KOutputInfo): (r: KState)
    requires Sorted(s.outputs)
    ensures Sorted(r.outputs)
    ensures Contains(r.outputs, info.id)
    ensures var cur := Get(s.outputs, info.id);
            cur.Some? && cur.value.kind.KScreen? ==>
              Get(r.outputs, info.id) == Some(KScreenOutput.Update(cur.value, Some(info)))
              && r.nextHandle == s.nextHandle
              && forall k :: k != info.id ==> Get(r.outputs, k) == Get(s.outputs, k)
    ensures var cur := Get(s.outputs, info.id);
            var i := FirstNamed(s.outputs, info.name);
            !(cur.Some? && cur.value.kind.KScreen?) && i < |s.outputs| && s.outputs[i].1.kind.KScreen? ==>
              Get(r.outputs, info.id) == Some(KScreenOutput.Update(s.outputs[i].1, Some(info)))
              && (s.outputs[i].0 != info.id ==> !Contains(r.outputs, s.outputs[i].0))
              && r.nextHandle == s.nextHandle
              && forall k :: k != info.id && k != s.outputs[i].0 ==> Get(r.outputs, k) == Get(s.outputs, k)
    ensures var cur := Get(s.outputs, info.id);
            var i := FirstNamed(s.outputs, info.name);
            !(cur.Some? && cur.value.kind.KScreen?) && !(i < |s.outputs| && s.outputs[i].1.kind.KScreen?) ==>
              Get(r.outputs, info.id) == Some(KScreenOutput.FromInfo(s.nextHandle, Some(info)))
              && r.nextHandle == s.nextHandle + 1
              && forall k :: k != info.id ==> Get(r.outputs, k) == Get(s.outputs, k)
  {
    var cur := Get(s.outputs, info.id);
    if cur.Some? && cur.value.kind.KScreen? then
      s.(outputs := Put(s.outputs, info.id, KScreenOutput.Update(cur.value, Some(info))))
    else
      var i := FirstNamed(s.outputs, info.name);
      if i < |s.outputs| && s.outputs[i].1.kind.KScreen? then
        var moved := Remove(s.outputs, s.outputs[i].0);
        s.(outputs := Put(moved, info.id, KScreenOutput.Update(s.outputs[i].1, Some(info))))
      else
        KState(Put(s.outputs, info.id, KScreenOutput.FromInfo(s.nextHandle, Some(info))), s.nextHandle + 1)
  }

  /** The update-and-create loop of refreshOutputs(config), in configuration order. */
  function RefreshAll(s: KState, cfg: Config): (r: KState)
    requires Sorted(s.outputs)
    ensures Sorted(r.outputs)
    ensures r.nextHandle >= s.nextHandle
    decreases |cfg|
  {
    if |cfg| == 0 then s else RefreshAll(RefreshOne(s, cfg[0]), cfg[1..])
  }

  /**
    KScreenResources::refreshOutputs(config): the update-and-create loop,
    then the removal of every output whose id the configuration does not list.
   */
  function Refresh(s: KState, cfg: Config): (r: KState)
    requires Sorted(s.outputs)
    ensures Sorted(r.outputs)
    ensures forall k :: Contains(r.outputs, k) ==> k in Ids(cfg)
  {
    var t := RefreshAll(s, cfg);
    RestrictSorted(t.outputs, Ids(cfg));
    var r := t.(outputs := Restrict(t.outputs, Ids(cfg)));
    forall k | Contains(r.outputs, k)
      ensures k in Ids(cfg)
    {
      GetRestrict(t.outputs, Ids(cfg), k);
    }
    r
  }

  lemma RefreshOneValid(s: KState, info: KOutputInfo)
    requires Valid(s)
    ensures Valid(RefreshOne(s, info))
  {
    var cur := Get(s.outputs, info.id);
    var i := FirstNamed(s.outputs, info.name);
    if cur.Some? && cur.value.kind.KScreen? {
      RefreshUpdateValid(s, info);
    } else if i < |s.outputs| && s.outputs[i].1.kind.KScreen? {
      RefreshMoveValid(s, info);
    } else {
      RefreshNewValid(s, info);
    }
  }

  /** Updating the object stored under the id keeps the state valid. */
  lemma RefreshUpdateValid(s: KState, info: KOutputInfo)
    requires Valid(s) && Contains(s.outputs, info.id) && Get(s.outputs, info.id).value.kind.KScreen?
    ensures Valid(RefreshOne(s, info))
  {
    var v := KScreenOutput.Update(Get(s.outputs, info.id).value, Some(info));
    assert RefreshOne(s, info) == s.(outputs := Put(s.outputs, info.id, v));
    ReplaceValid(s, info.id, v);
  }

  /** Replacing a stored output by one of the same kind keeps the state valid. */
  lemma ReplaceValid(s: KState, k: nat, v: Output)
    requires Valid(s) && Contains(s.outputs, k) && Get(s.outputs, k).value.kind == v.kind
    ensures Valid(s.(outputs := Put(s.outputs, k, v)))
  {
    var m := Put(s.outputs, k, v);
    forall k1 | Contains(m, k1)
      ensures Contains(s.outputs, k1) && Get(m, k1).value.kind == Get(s.outputs, k1).value.kind
    {
      if k1 != k {
        assert Get(m, k1) == Get(s.outputs, k1);
      }
    }
  }

  /** Moving the object found by name to the new id keeps the state valid. */
  lemma RefreshMoveValid(s: KState, info: KOutputInfo)
    requires Valid(s) && !(Contains(s.outputs, info.id) && Get(s.outputs, info.id).value.kind.KScreen?)
    requires var i := FirstNamed(s.outputs, info.name); i < |s.outputs| && s.outputs[i].1.kind.KScreen?
    ensures Valid(RefreshOne(s, info))
  {
    var r := RefreshOne(s, info);
    var i := FirstNamed(s.outputs, info.name);
    var ki := s.outputs[i].0;
    GetAt(s.outputs, i);
    assert Get(r.outputs, info.id).value.kind == Get(s.outputs, ki).value.kind;
    RefreshMoveOthers(s, info);
    forall k1, k2 | Contains(r.outputs, k1) && Contains(r.outputs, k2) && k1 != k2
      ensures Get(r.outputs, k1).value.kind.handle != Get(r.outputs, k2).value.kind.handle
    {
      if k1 == info.id {
        assert Get(r.outputs, k2) == Get(s.outputs, k2) && k2 != ki;
      } else if k2 == info.id {
        assert Get(r.outputs, k1) == Get(s.outputs, k1) && k1 != ki;
      }
    }
  }

  /** Moving the object found by name leaves every other stored object where it was. */
  lemma RefreshMoveOthers(s: KState, info: KOutputInfo)
    requires Sorted(s.outputs) && !(Contains(s.outputs, info.id) && Get(s.outputs, info.id).value.kind.KScreen?)
    requires var i := FirstNamed(s.outputs, info.name); i < |s.outputs| && s.outputs[i].1.kind.KScreen?
    ensures var r := RefreshOne(s, info);
            var ki := s.outputs[FirstNamed(s.outputs, info.name)].0;
            forall k :: Contains(r.outputs, k) && k != info.id ==> Get(r.outputs, k) == Get(s.outputs, k) && k != ki
  {
    var r := RefreshOne(s, info);
    var i := FirstNamed(s.outputs, info.name);
    var ki := s.outputs[i].0;
    forall k | Contains(r.outputs, k) && k != info.id
      ensures Get(r.outputs, k) == Get(s.outputs, k) && k != ki
    {
    }
  }

  /** Storing a new object under the next handle keeps the state valid. */
  lemma RefreshNewValid(s: KState, info: KOutputInfo)
    requires Valid(s) && !(Contains(s.outputs, info.id) && Get(s.outputs, info.id).value.kind.KScreen?)
    requires var i := FirstNamed(s.outputs, info.name); !(i < |s.outputs| && s.outputs[i].1.kind.KScreen?)
    ensures Valid(RefreshOne(s, info))
  {
  }

  lemma {:induction false} RefreshAllValid(s: KState, cfg: Config)
    requires Valid(s)
    ensures Valid(RefreshAll(s, cfg))
    decreases |cfg|
  {
    if |cfg| > 0 {
      RefreshOneValid(s, cfg[0]);
      RefreshAllValid(RefreshOne(s, cfg[0]), cfg[1..]);
    }
  }

  /** refreshOutputs(config) keeps the state valid. */
  lemma RefreshValid(s: KState, cfg: Config)
    requires Valid(s)
    ensures Valid(Refresh(s, cfg))
  {
    var t := RefreshAll(s, cfg);
    RefreshAllValid(s, cfg);
    forall k
      ensures Get(Refresh(s, cfg).outputs, k) == (if k in Ids(cfg) then Get(t.outputs, k) else None)
    {
      GetRestrict(t.outputs, Ids(cfg), k);
    }
  }

  /**
    The configuration lists exactly the stored outputs, under the ids they
    are stored under, and reports nothing that would change their
    connection state.
   */
  ghost predicate Agrees(s: KState, cfg: Config) {
    (forall i :: 0 <= i < |cfg| ==> Listed(s, cfg[i]))
    && (forall k :: Contains(s.outputs, k) ==> k in Ids(cfg))
  }

  /** `info` names a stored KScreen output that updating from `info` leaves as it is. */
  ghost predicate Listed(s: KState, info: KOutputInfo) {
    Contains(s.outputs, info.id) && Get(s.outputs, info.id).value.kind.KScreen?
    && KScreenOutput.Update(Get(s.outputs, info.id).value, Some(info)) == Get(s.outputs, info.id).value
  }

  lemma {:induction false} RefreshAllAgrees(s: KState, cfg: Config)
    requires Sorted(s.outputs)
    requires forall i :: 0 <= i < |cfg| ==> Listed(s, cfg[i])
    ensures RefreshAll(s, cfg) == s
    decreases |cfg|
  {
    if |cfg| > 0 {
      var info := cfg[0];
      PutSame(s.outputs, info.id, Get(s.outputs, info.id).value);
      assert RefreshOne(s, info) == s;
      assert forall i :: 0 <= i < |cfg[1..]| ==> cfg[1..][i] == cfg[i + 1];
      RefreshAllAgrees(s, cfg[1..]);
    }
  }

  /** Refreshing from a configuration that agrees with the stored outputs changes nothing. */
  lemma RefreshAgrees(s: KState, cfg: Config)
    requires Sorted(s.outputs) && Agrees(s, cfg)
    ensures Refresh(s, cfg) == s
  {
    RefreshAllAgrees(s, cfg);
    forall i | 0 <= i < |s.outputs|
      ensures s.outputs[i].0 in Ids(cfg)
    {
      assert Keys(s.outputs)[i] == s.outputs[i].0;
    }
    RestrictAll(s.outputs, Ids(cfg));
  }

  /**
    A KScreen output that computeTotalScreen and computeTotalPriority count
    (and, when asked, one that computeScreen and computePriority count).
   */
  predicate Counted(o: Output, onlyEnabled: bool) {
    o.kind.KScreen? && o.connection == Connected && (!onlyEnabled || o.enabled)
  }

  /** The remembered rectangles of the counted outputs, in key order. */
  function Rects(outs: Entries<Output>, onlyEnabled: bool): (rs: seq<Rect>)
    ensures |rs| <= |outs|
  {
    if |outs| == 0 then []
    else (if Counted(outs[0].1, onlyEnabled) then [outs[0].1.kind.rect] else []) + Rects(outs[1..], onlyEnabled)
  }

  /** The remembered priorities of the counted outputs, in key order. */
  function Priorities(outs: Entries<Output>, onlyEnabled: bool): (ps: seq<U32>)
    ensures |ps| <= |outs|
  {
    if |outs| == 0 then []
    else (if Counted(outs[0].1, onlyEnabled) then [outs[0].1.kind.priority] else [])
         + Priorities(outs[1..], onlyEnabled)
  }

  /** computeTotalScreen: the union of the connected outputs' rectangles. */
  function TotalScreen(s: KState): Rect {
    UnionAll(Rects(s.outputs, false))
  }

  /** computeScreen: the union of the connected and enabled outputs' rectangles. */
  function Screen(s: KState): Rect {
    UnionAll(Rects(s.outputs, true))
  }

  /**
    The loop of computeTotalPriority / computePriority: the smallest of the
    priorities, and 0 when there are none.
   */
  function MinPriority(ps: seq<U32>): (m: U32)
    ensures |ps| == 0 ==> m == 0
    ensures |ps| > 0 ==> m in ps
    ensures forall i :: 0 <= i < |ps| ==> m <= ps[i]
  {
    if |ps| == 0 then 0
    else if |ps| == 1 then ps[0]
    else
      var rest := MinPriority(ps[1..]);
      if ps[0] <= rest then ps[0] else rest
  }

  /** computeTotalPriority */
  function TotalPriority(s: KState): U32 {
    MinPriority(Priorities(s.outputs, false))
  }

  /** computePriority */
  function Priority(s: KState): U32 {
    MinPriority(Priorities(s.outputs, true))
  }

  lemma {:induction false} EnabledAmongAll(outs: Entries<Output>)
    ensures forall r :: r in Rects(outs, true) ==> r in Rects(outs, false)
    ensures forall p :: p in Priorities(outs, true) ==> p in Priorities(outs, false)
  {
    if |outs| > 0 {
      EnabledAmongAll(outs[1..]);
    }
  }

  lemma {:induction false} CountedListed(outs: Entries<Output>, onlyEnabled: bool, i: nat)
    requires i < |outs| && Counted(outs[i].1, onlyEnabled)
    ensures outs[i].1.kind.rect in Rects(outs, onlyEnabled)
    ensures outs[i].1.kind.priority in Priorities(outs, onlyEnabled)
  {
    if i > 0 {
      CountedListed(outs[1..], onlyEnabled, i - 1);
    }
  }

  lemma {:induction false} ListedCounted(outs: Entries<Output>, onlyEnabled: bool, p: U32)
    requires p in Priorities(outs, onlyEnabled)
    ensures exists i :: 0 <= i < |outs| && Counted(outs[i].1, onlyEnabled) && outs[i].1.kind.priority == p
  {
    if !(Counted(outs[0].1, onlyEnabled) && outs[0].1.kind.priority == p) {
      ListedCounted(outs[1..], onlyEnabled, p);
      var i :| 0 <= i < |outs[1..]| && Counted(outs[1..][i].1, onlyEnabled) && outs[1..][i].1.kind.priority == p;
      assert outs[i + 1] == outs[1..][i];
    }
  }

  lemma {:induction false} ListedRectCounted(outs: Entries<Output>, onlyEnabled: bool, r: Rect)
    requires r in Rects(outs, onlyEnabled)
    ensures exists i :: 0 <= i < |outs| && Counted(outs[i].1, onlyEnabled) && outs[i].1.kind.rect == r
  {
    if !(Counted(outs[0].1, onlyEnabled) && outs[0].1.kind.rect == r) {
      ListedRectCounted(outs[1..], onlyEnabled, r);
      var i :| 0 <= i < |outs[1..]| && Counted(outs[1..][i].1, onlyEnabled) && outs[1..][i].1.kind.rect == r;
      assert outs[i + 1] == outs[1..][i];
    }
  }

  /** A rectangle that contains every counted rectangle contains their union. */
  lemma RectsLeast(outs: Entries<Output>, onlyEnabled: bool, c: Rect)
    requires forall i :: 0 <= i < |outs| && Counted(outs[i].1, onlyEnabled) ==> Within(outs[i].1.kind.rect, c)
    ensures Within(UnionAll(Rects(outs, onlyEnabled)), c)
  {
    var rs := Rects(outs, onlyEnabled);
    forall j | 0 <= j < |rs|
      ensures Within(rs[j], c)
    {
      ListedRectCounted(outs, onlyEnabled, rs[j]);
    }
    UnionAllLeast(rs, c);
  }

  /**
    computeTotalScreen and computeScreen are the least rectangles covering
    the rectangles they count; computeScreen is null exactly when every
    connected enabled output has a null rectangle.
   */
  lemma ScreensLeast(s: KState, c: Rect)
    ensures (forall i :: 0 <= i < |s.outputs| && Counted(s.outputs[i].1, false) ==> Within(s.outputs[i].1.kind.rect, c))
            ==> Within(TotalScreen(s), c)
    ensures (forall i :: 0 <= i < |s.outputs| && Counted(s.outputs[i].1, true) ==> Within(s.outputs[i].1.kind.rect, c))
            ==> Within(Screen(s), c)
    ensures Screen(s).IsNull() <==>
              forall i :: 0 <= i < |s.outputs| && Counted(s.outputs[i].1, true) ==> s.outputs[i].1.kind.rect.IsNull()
  {
    if forall i :: 0 <= i < |s.outputs| && Counted(s.outputs[i].1, false) ==> Within(s.outputs[i].1.kind.rect, c) {
      RectsLeast(s.outputs, false, c);
    }
    if forall i :: 0 <= i < |s.outputs| && Counted(s.outputs[i].1, true) ==> Within(s.outputs[i].1.kind.rect, c) {
      RectsLeast(s.outputs, true, c);
    }
    var rs := Rects(s.outputs, true);
    UnionAllNull(rs);
    if Screen(s).IsNull() {
      forall i | 0 <= i < |s.outputs| && Counted(s.outputs[i].1, true)
        ensures s.outputs[i].1.kind.rect.IsNull()
      {
        CountedListed(s.outputs, true, i);
      }
    } else {
      var j :| 0 <= j < |rs| && !rs[j].IsNull();
      ListedRectCounted(s.outputs, true, rs[j]);
    }
  }

  /** The smallest counted priority, one of them, and 0 when none is counted. */
  lemma MinimumOfCounted(outs: Entries<Output>, onlyEnabled: bool)
    ensures var m := MinPriority(Priorities(outs, onlyEnabled));
            (forall i :: 0 <= i < |outs| && Counted(outs[i].1, onlyEnabled) ==> m <= outs[i].1.kind.priority)
            && ((exists i :: 0 <= i < |outs| && Counted(outs[i].1, onlyEnabled)) ==>
                  exists i :: 0 <= i < |outs| && Counted(outs[i].1, onlyEnabled) && outs[i].1.kind.priority == m)
            && ((forall i :: 0 <= i < |outs| ==> !Counted(outs[i].1, onlyEnabled)) ==> m == 0)
  {
    var ps := Priorities(outs, onlyEnabled);
    var m := MinPriority(ps);
    forall i | 0 <= i < |outs| && Counted(outs[i].1, onlyEnabled)
      ensures m <= outs[i].1.kind.priority
    {
      CountedListed(outs, onlyEnabled, i);
    }
    if |ps| > 0 {
      ListedCounted(outs, onlyEnabled, m);
    } else if exists i :: 0 <= i < |outs| && Counted(outs[i].1, onlyEnabled) {
      var i :| 0 <= i < |outs| && Counted(outs[i].1, onlyEnabled);
      CountedListed(outs, onlyEnabled, i);
    }
  }

  /**
    computeTotalPriority and computePriority: the smallest priority of the
    connected outputs (of the connected enabled ones), attained by one of
    them, and 0 when there is none.
   */
  lemma PriorityMinima(s: KState)
    ensures forall i :: 0 <= i < |s.outputs| && Counted(s.outputs[i].1, false) ==>
              TotalPriority(s) <= s.outputs[i].1.kind.priority
    ensures forall i :: 0 <= i < |s.outputs| && Counted(s.outputs[i].1, true) ==>
              Priority(s) <= s.outputs[i].1.kind.priority
    ensures (exists i :: 0 <= i < |s.outputs| && Counted(s.outputs[i].1, false)) ==>
              exists i :: 0 <= i < |s.outputs| && Counted(s.outputs[i].1, false)
                          && s.outputs[i].1.kind.priority == TotalPriority(s)
    ensures (exists i :: 0 <= i < |s.outputs| && Counted(s.outputs[i].1, true)) ==>
              exists i :: 0 <= i < |s.outputs| && Counted(s.outputs[i].1, true)
                          && s.outputs[i].1.kind.priority == Priority(s)
    ensures (forall i :: 0 <= i < |s.outputs| ==> !Counted(s.outputs[i].1, false)) ==> TotalPriority(s) == 0
    ensures (forall i :: 0 <= i < |s.outputs| ==> !Counted(s.outputs[i].1, true)) ==> Priority(s) == 0
  {
    MinimumOfCounted(s.outputs, false);
    MinimumOfCounted(s.outputs, true);
  }

  /**
    The screen of the enabled outputs lies within the total screen, and the
    total screen covers every connected output.
   */
  lemma ScreenWithinTotal(s: KState)
    ensures Within(Screen(s), TotalScreen(s))
    ensures forall i :: 0 <= i < |s.outputs| && Counted(s.outputs[i].1, false) ==>
              Within(s.outputs[i].1.kind.rect, TotalScreen(s))
  {
    EnabledAmongAll(s.outputs);
    UnionAllMonotone(Rects(s.outputs, true), Rects(s.outputs, false));
    forall i | 0 <= i < |s.outputs| && Counted(s.outputs[i].1, false)
      ensures Within(s.outputs[i].1.kind.rect, TotalScreen(s))
    {
      CountedListed(s.outputs, false, i);
      UnionAllMonotone([s.outputs[i].1.kind.rect], Rects(s.outputs, false));
    }
  }

  /**
    When some connected output is enabled, the smallest enabled priority is
    at least the smallest connected priority, so the unsigned shift
    computePriority() - computeTotalPriority() does not wrap around.
   */
  lemma PriorityShiftExact(s: KState)
    requires exists i :: 0 <= i < |s.outputs| && Counted(s.outputs[i].1, true)
    ensures Priority(s) >= TotalPriority(s)
    ensures Shift(s) == Priority(s) - TotalPriority(s)
  {
    var i :| 0 <= i < |s.outputs| && Counted(s.outputs[i].1, true);
    CountedListed(s.outputs, true, i);
    EnabledAmongAll(s.outputs);
  }

  /**
    The other side of the asserted inequality: when no connected output is
    enabled, computePriority() answers 0, so a positive smallest connected
    priority makes the assertion fail and the unsigned shift wrap around.
   */
  lemma ShiftWrapsWithoutEnabled(s: KState)
    requires forall i :: 0 <= i < |s.outputs| ==> !Counted(s.outputs[i].1, true)
    requires TotalPriority(s) > 0
    ensures Priority(s) == 0 && Priority(s) < TotalPriority(s)
    ensures Shift(s) == TwoTo32 - TotalPriority(s)
  {
    var ps := Priorities(s.outputs, true);
    if |ps| > 0 {
      ListedCounted(s.outputs, true, ps[0]);
    }
  }

  /** Every priority lowered by `d`, with the unsigned wrap-around of uint32_t. */
  function ShiftAll(ps: seq<U32>, d: U32): (qs: seq<U32>)
    ensures |qs| == |ps|
    ensures forall i :: 0 <= i < |ps| ==> qs[i] == U32Sub(ps[i], d)
  {
    seq(|ps|, i requires 0 <= i < |ps| => U32Sub(ps[i], d))
  }

  /** Lowering priorities that are all at least `d` lowers their minimum by `d`. */
  lemma MinShift(ps: seq<U32>, d: U32)
    requires |ps| > 0 && forall i :: 0 <= i < |ps| ==> ps[i] >= d
    ensures MinPriority(ShiftAll(ps, d)) == MinPriority(ps) - d
  {
    var qs := ShiftAll(ps, d);
    var m := MinPriority(ps);
    var j :| 0 <= j < |ps| && ps[j] == m;
    var k :| 0 <= k < |qs| && qs[k] == MinPriority(qs);
    assert qs[j] == m - d;
  }

  /**
    Shifting the enabled outputs' priorities by computePriority() -
    computeTotalPriority() makes their smallest priority the smallest
    priority over all connected outputs: the primary output keeps its rank.
   */
  lemma ShiftedPrioritiesKeepMinimum(s: KState)
    requires exists i :: 0 <= i < |s.outputs| && Counted(s.outputs[i].1, true)
    ensures MinPriority(ShiftAll(Priorities(s.outputs, true), Shift(s))) == TotalPriority(s)
  {
    PriorityShiftExact(s);
    var i :| 0 <= i < |s.outputs| && Counted(s.outputs[i].1, true);
    CountedListed(s.outputs, true, i);
    MinShift(Priorities(s.outputs, true), Priority(s) - TotalPriority(s));
  }

  /**
    The enabled outputs' rectangles, each moved by the offset that the
    configuration update subtracts, together start at the top-left corner
    of the total screen.
   */
  lemma AnchoredToTotalScreen(s: KState)
    requires !Screen(s).IsNull()
    ensures UnionAll(TranslateAll(Rects(s.outputs, true), Anchor(s))).TopLeft() == TotalScreen(s).TopLeft()
  {
    var rs := Rects(s.outputs, true);
    UnionAllNull(rs);
    UnionAllTranslate(rs, Anchor(s));
  }

  /**
    The body of the rewriting loop of updateConfig(offset, shift) for one
    output of the configuration. An output without a stored KScreen object
    is left alone. Otherwise a disagreeing enabled flag is set to the stored
    one (and the position is left as KScreen reports it), an agreeing one
    keeps its flag and gets the remembered position minus `offset`; an
    output that ends up enabled gets the remembered priority minus `shift`.
   */
  function AdjustOutput(outs: Entries<Output>, info: KOutputInfo, offset: Point, shift: U32): (r: KOutputInfo)
    ensures r.(enabled := info.enabled, pos := info.pos, priority := info.priority) == info
    ensures var rec := Get(outs, info.id);
            (rec.None? || !rec.value.kind.KScreen? ==> r == info)
            && (rec.Some? && rec.value.kind.KScreen? ==>
                  r.enabled == rec.value.enabled
                  && (info.enabled == rec.value.enabled ==> Add(r.pos, offset) == rec.value.kind.rect.TopLeft())
                  && (info.enabled != rec.value.enabled ==> r.pos == info.pos)
                  && (r.enabled ==> r.priority == U32Sub(rec.value.kind.priority, shift))
                  && (!r.enabled ==> r.priority == info.priority))
  {
    var rec := Get(outs, info.id);
    if rec.None? || !rec.value.kind.KScreen? then info
    else
      var o := rec.value;
      var placed := if info.enabled != o.enabled then info.(enabled := o.enabled)
                    else info.(pos := Sub(o.kind.rect.TopLeft(), offset));
      if placed.enabled then placed.(priority := U32Sub(o.kind.priority, shift)) else placed
  }

  /**
    The configuration updateConfig submits: the outputs KScreen reported, in
    its order and with their ids, names and connections; every output with a
    stored KScreen object carries the flag the engine holds for it, and every
    other output is submitted as it was read.
   */
  function Adjust(outs: Entries<Output>, cfg: Config, offset: Point, shift: U32): (r: Config)
    ensures |r| == |cfg| && Ids(r) == Ids(cfg)
    ensures forall i :: 0 <= i < |cfg| ==>
              r[i].id == cfg[i].id && r[i].name == cfg[i].name && r[i].connected == cfg[i].connected
    ensures forall i :: 0 <= i < |cfg| ==>
              var rec := Get(outs, cfg[i].id);
              (rec.Some? && rec.value.kind.KScreen? ==> r[i].enabled == rec.value.enabled)
              && (!(rec.Some? && rec.value.kind.KScreen?) ==> r[i] == cfg[i])
  {
    seq(|cfg|, i requires 0 <= i < |cfg| => AdjustOutput(outs, cfg[i], offset, shift))
  }

  /** What updateConfig / enableOutput / disableOutput leave behind, answer, and submit to KScreen. */
  datatype KOutcome = KOutcome(state: KState, ok: bool, submitted: Option<Config>)

  /**
    KScreenResources::updateConfig(offset, shift): without a current
    configuration nothing happens and the answer is false; otherwise the
    outputs are refreshed from it, it is rewritten and submitted, and the
    answer is whether KScreen accepts it.
   */
  function UpdateConfig(s: KState, offset: Point, shift: U32,
                        current: Option<Config>, accept: Config -> bool): (r: KOutcome)
    requires Sorted(s.outputs)
    ensures Sorted(r.state.outputs)
    ensures current.None? ==> r == KOutcome(s, false, None)
    ensures current.Some? ==>
              r.state == Refresh(s, current.value)
              && r.submitted == Some(Adjust(r.state.outputs, current.value, offset, shift))
              && (r.ok <==> accept(r.submitted.value))
  {
    match current
    case None => KOutcome(s, false, None)
    case Some(cfg) =>
      var t := Refresh(s, cfg);
      var sub := Adjust(t.outputs, cfg, offset, shift);
      KOutcome(t, accept(sub), Some(sub))
  }

  /** Sets the enabled flag of the object `handle`, wherever it is now stored. */
  function Revert(outs: Entries<Output>, handle: nat, flag: bool): (r: Entries<Output>)
    ensures |r| == |outs|
    ensures forall i :: 0 <= i < |outs| ==>
              r[i].0 == outs[i].0
              && r[i].1.(enabled := outs[i].1.enabled) == outs[i].1
              && (r[i].1.enabled <==> if outs[i].1.kind.KScreen? && outs[i].1.kind.handle == handle
                                      then flag else outs[i].1.enabled)
  {
    MapValues(outs, (o: Output) => if o.kind.KScreen? && o.kind.handle == handle then o.(enabled := flag) else o)
  }

  /** The offset updateConfig subtracts: newScreen.topLeft() - totalScreen.topLeft(). */
  function Offset(s: KState): Point {
    Sub(Screen(s).TopLeft(), TotalScreen(s).TopLeft())
  }

  /** The priority shift: computePriority() - computeTotalPriority() in uint32_t arithmetic. */
  function Shift(s: KState): U32 {
    U32Sub(Priority(s), TotalPriority(s))
  }

  /** The move that subtracting Offset(s) makes: from the screen's corner to the total screen's. */
  function Anchor(s: KState): (d: Point)
    ensures Add(Screen(s).TopLeft(), d) == TotalScreen(s).TopLeft()
    ensures d == Sub(Point(0, 0), Offset(s))
  {
    Sub(TotalScreen(s).TopLeft(), Screen(s).TopLeft())
  }

  /**
    The common part of enableOutput and disableOutput once the flag of the
    output under `key` has been set in `s1`: the offset and the priority
    shift are computed on `s1`, the configuration is updated, and on failure
    the object's flag is set back to `before`.
   */
  function Apply(s1: KState, handle: nat, before: bool, current: Option<Config>, accept: Config -> bool): (r: KOutcome)
    requires Sorted(s1.outputs)
    ensures Sorted(r.state.outputs)
    ensures var u := UpdateConfig(s1, Offset(s1), Shift(s1), current, accept);
            r.ok == u.ok && r.submitted == u.submitted
            && (u.ok ==> r.state == u.state)
            && (!u.ok ==> r.state == u.state.(outputs := Revert(u.state.outputs, handle, before)))
  {
    var u := UpdateConfig(s1, Offset(s1), Shift(s1), current, accept);
    if u.ok then u
    else
      RevertSorted(u.state.outputs, handle, before);
      u.(state := u.state.(outputs := Revert(u.state.outputs, handle, before)))
  }

  lemma RevertSorted(outs: Entries<Output>, handle: nat, flag: bool)
    requires Sorted(outs)
    ensures Sorted(Revert(outs, handle, flag))
  {
  }

  /** The state with the flag of the output under `key` set. */
  function Flip(s: KState, key: nat, flag: bool): (r: KState)
    requires Sorted(s.outputs) && Contains(s.outputs, key)
    ensures Sorted(r.outputs) && r.nextHandle == s.nextHandle
    ensures Get(r.outputs, key) == Some(Get(s.outputs, key).value.(enabled := flag))
    ensures forall k :: k != key ==> Get(r.outputs, k) == Get(s.outputs, k)
  {
    s.(outputs := Put(s.outputs, key, Get(s.outputs, key).value.(enabled := flag)))
  }

  /**
    KScreenResources::enableOutput(output, grab) for the output stored under
    `key`; `grab` plays no part in this backend. An output of the other
    backend is refused, an enabled one is accepted as it is, and otherwise
    the answer is KScreen's.
   */
  function EnableOutput(s: KState, key: nat, current: Option<Config>, accept: Config -> bool): (r: KOutcome)
    requires Sorted(s.outputs) && Contains(s.outputs, key)
    ensures Sorted(r.state.outputs)
    ensures var o := Get(s.outputs, key).value;
            (!o.kind.KScreen? ==> r == KOutcome(s, false, None))
            && (o.kind.KScreen? && o.enabled ==> r == KOutcome(s, true, None))
            && (o.kind.KScreen? && !o.enabled ==>
                  r == Apply(Flip(s, key, true), o.kind.handle, false, current, accept))
  {
    var o := Get(s.outputs, key).value;
    if !o.kind.KScreen? then KOutcome(s, false, None)
    else if o.enabled then KOutcome(s, true, None)
    else Apply(Flip(s, key, true), o.kind.handle, false, current, accept)
  }

  /**
    KScreenResources::disableOutput(output, grab) for the output stored
    under `key`. Besides the cases of enableOutput, it refuses, without
    reading the configuration, to switch off the last enabled connected
    output with a non-null rectangle.
   */
  function DisableOutput(s: KState, key: nat, current: Option<Config>, accept: Config -> bool): (r: KOutcome)
    requires Sorted(s.outputs) && Contains(s.outputs, key)
    ensures Sorted(r.state.outputs)
    ensures var o := Get(s.outputs, key).value;
            var s1 := Flip(s, key, false);
            (!o.kind.KScreen? ==> r == KOutcome(s, false, None))
            && (o.kind.KScreen? && !o.enabled ==> r == KOutcome(s, true, None))
            && (o.kind.KScreen? && o.enabled && Screen(s1).IsNull() ==> r == KOutcome(s, false, None))
            && (o.kind.KScreen? && o.enabled && !Screen(s1).IsNull() ==>
                  r == Apply(s1, o.kind.handle, true, current, accept))
  {
    var o := Get(s.outputs, key).value;
    if !o.kind.KScreen? then KOutcome(s, false, None)
    else if !o.enabled then KOutcome(s, true, None)
    else
      var s1 := Flip(s, key, false);
      if Screen(s1).IsNull() then
        PutPut(s.outputs, key, o.(enabled := false), o);
        PutSame(s.outputs, key, o);
        KOutcome(s1.(outputs := Put(s1.outputs, key, o)), false, None)
      else Apply(s1, o.kind.handle, true, current, accept)
  }

  lemma FlipValid(s: KState, key: nat, flag: bool)
    requires Valid(s) && Contains(s.outputs, key)
    ensures Valid(Flip(s, key, flag))
  {
    var r := Flip(s, key, flag);
    forall k
      ensures Contains(r.outputs, k) == Contains(s.outputs, k)
      ensures Contains(r.outputs, k) ==> Get(r.outputs, k).value.kind == Get(s.outputs, k).value.kind
    {
      if k != key {
        assert Get(r.outputs, k) == Get(s.outputs, k);
      }
    }
  }

  lemma RevertValid(s: KState, handle: nat, flag: bool)
    requires Valid(s)
    ensures Valid(s.(outputs := Revert(s.outputs, handle, flag)))
  {
    var f := (o: Output) => if o.kind.KScreen? && o.kind.handle == handle then o.(enabled := flag) else o;
    var r := Revert(s.outputs, handle, flag);
    assert r == MapValues(s.outputs, f);
    MapValuesKeys(s.outputs, f);
    forall k
      ensures Get(r, k) == (if Contains(s.outputs, k) then Some(f(Get(s.outputs, k).value)) else None)
    {
      GetMapValues(s.outputs, f, k);
    }
  }

  lemma ApplyValid(s1: KState, handle: nat, before: bool, current: Option<Config>, accept: Config -> bool)
    requires Valid(s1)
    ensures Valid(Apply(s1, handle, before, current, accept).state)
  {
    var a := Apply(s1, handle, before, current, accept);
    var u := UpdateConfig(s1, Offset(s1), Shift(s1), current, accept);
    if current.Some? {
      RefreshValid(s1, current.value);
    }
    RevertValid(u.state, handle, before);
    assert a.state == u.state || a.state == u.state.(outputs := Revert(u.state.outputs, handle, before));
  }

  /** enableOutput keeps the state valid. */
  lemma EnableValid(s: KState, key: nat, current: Option<Config>, accept: Config -> bool)
    requires Valid(s) && Contains(s.outputs, key)
    ensures Valid(EnableOutput(s, key, current, accept).state)
  {
    var o := Get(s.outputs, key).value;
    if o.kind.KScreen? && !o.enabled {
      FlipValid(s, key, true);
      ApplyValid(Flip(s, key, true), o.kind.handle, false, current, accept);
    }
  }

  /** disableOutput keeps the state valid. */
  lemma DisableValid(s: KState, key: nat, current: Option<Config>, accept: Config -> bool)
    requires Valid(s) && Contains(s.outputs, key)
    ensures Valid(DisableOutput(s, key, current, accept).state)
  {
    var o := Get(s.outputs, key).value;
    if o.kind.KScreen? && o.enabled && !Screen(Flip(s, key, false)).IsNull() {
      FlipValid(s, key, false);
      ApplyValid(Flip(s, key, false), o.kind.handle, true, current, accept);
    }
  }

  /**
    Setting the flag of a stored object and then setting it back through
    its identity gives back the outputs as they were.
   */
  lemma RevertUndoesFlip(s: KState, key: nat, flag: bool)
    requires Valid(s) && Contains(s.outputs, key)
    ensures var o := Get(s.outputs, key).value;
            Revert(Flip(s, key, flag).outputs, o.kind.handle, o.enabled) == s.outputs
  {
    var o := Get(s.outputs, key).value;
    var j := KeyPosition(s.outputs, key);
    GetAt(s.outputs, j);
    PutReplaces(s.outputs, j, o.(enabled := flag));
    var m1 := s.outputs[j := (key, o.(enabled := flag))];
    assert Flip(s, key, flag).outputs == m1;
    var r := Revert(m1, o.kind.handle, o.enabled);
    forall i | 0 <= i < |s.outputs|
      ensures r[i] == s.outputs[i]
    {
      RevertFlipAt(s, j, flag, i);
    }
    assert r == s.outputs;
  }

  /** One position of the map in RevertUndoesFlip. */
  lemma RevertFlipAt(s: KState, j: nat, flag: bool, i: nat)
    requires Valid(s) && j < |s.outputs| && i < |s.outputs|
    ensures var o := s.outputs[j].1;
            var m1 := s.outputs[j := (s.outputs[j].0, o.(enabled := flag))];
            o.kind.KScreen? && Revert(m1, o.kind.handle, o.enabled)[i] == s.outputs[i]
  {
    var o := s.outputs[j].1;
    var m1 := s.outputs[j := (s.outputs[j].0, o.(enabled := flag))];
    GetAt(s.outputs, j);
    assert Keys(s.outputs)[j] == s.outputs[j].0;
    assert Contains(s.outputs, s.outputs[j].0);
    var r := Revert(m1, o.kind.handle, o.enabled);
    if i != j {
      RevertOther(s, i, j);
    } else {
      assert r[i].1.(enabled := o.enabled) == r[i].1;
    }
  }

  /** Two positions of a valid map hold different objects. */
  lemma RevertOther(s: KState, i: nat, j: nat)
    requires Valid(s) && i < |s.outputs| && j < |s.outputs| && i != j
    ensures s.outputs[i].1.kind.KScreen? && s.outputs[j].1.kind.KScreen?
    ensures s.outputs[i].1.kind.handle != s.outputs[j].1.kind.handle
  {
    GetAt(s.outputs, i);
    GetAt(s.outputs, j);
    assert Keys(s.outputs)[i] == s.outputs[i].0 && Keys(s.outputs)[j] == s.outputs[j].0;
    assert Contains(s.outputs, s.outputs[i].0) && Contains(s.outputs, s.outputs[j].0);
  }

  /** The configuration agrees with the stored outputs and reports the same enabled flags. */
  ghost predicate InSync(s: KState, cfg: Config) {
    Agrees(s, cfg) && forall i :: 0 <= i < |cfg| ==> cfg[i].enabled == Get(s.outputs, cfg[i].id).value.enabled
  }

  lemma FlipAgrees(s: KState, key: nat, flag: bool, cfg: Config)
    requires Valid(s) && Contains(s.outputs, key) && Agrees(s, cfg)
    ensures Agrees(Flip(s, key, flag), cfg)
  {
    var s1 := Flip(s, key, flag);
    forall i | 0 <= i < |cfg|
      ensures Listed(s1, cfg[i])
    {
      assert Listed(s, cfg[i]);
    }
    forall k | Contains(s1.outputs, k)
      ensures k in Ids(cfg)
    {
      if k != key {
        assert Get(s1.outputs, k) == Get(s.outputs, k);
      }
    }
  }

  lemma ApplyWithAgreeingConfig(s: KState, key: nat, flag: bool, cfg: Config, accept: Config -> bool)
    requires Valid(s) && Contains(s.outputs, key) && Agrees(s, cfg)
    ensures var o := Get(s.outputs, key).value;
            var a := Apply(Flip(s, key, flag), o.kind.handle, o.enabled, Some(cfg), accept);
            (a.ok ==> a.state == Flip(s, key, flag)) && (!a.ok ==> a.state == s)
  {
    var s1 := Flip(s, key, flag);
    FlipAgrees(s, key, flag, cfg);
    RefreshAgrees(s1, cfg);
    RevertUndoesFlip(s, key, flag);
  }

  /**
    With a configuration that agrees with the stored outputs, a failed
    enableOutput leaves the state as it was and a successful one sets the
    output's flag and changes nothing else.
   */
  lemma EnableWithAgreeingConfig(s: KState, key: nat, cfg: Config, accept: Config -> bool)
    requires Valid(s) && Contains(s.outputs, key) && Agrees(s, cfg)
    ensures var r := EnableOutput(s, key, Some(cfg), accept);
            (r.ok ==> r.state == Flip(s, key, true)) && (!r.ok ==> r.state == s)
  {
    var o := Get(s.outputs, key).value;
    if !o.enabled {
      ApplyWithAgreeingConfig(s, key, true, cfg, accept);
    } else {
      PutSame(s.outputs, key, o);
      assert o.(enabled := true) == o;
    }
  }

  /** The same for disableOutput. */
  lemma DisableWithAgreeingConfig(s: KState, key: nat, cfg: Config, accept: Config -> bool)
    requires Valid(s) && Contains(s.outputs, key) && Agrees(s, cfg)
    ensures var r := DisableOutput(s, key, Some(cfg), accept);
            (r.ok ==> r.state == Flip(s, key, false)) && (!r.ok ==> r.state == s)
  {
    var o := Get(s.outputs, key).value;
    if o.enabled {
      ApplyWithAgreeingConfig(s, key, false, cfg, accept);
    } else {
      PutSame(s.outputs, key, o);
      assert o.(enabled := false) == o;
    }
  }

  /**
    Disabling an output and enabling it again, both accepted by KScreen and
    each read from a configuration that agrees with the stored outputs,
    gives back the state the engine started from.
   */
  lemma DisableThenEnableRestoresState(s: KState, key: nat, cfg1: Config, cfg2: Config,
                                       accept1: Config -> bool, accept2: Config -> bool)
    requires Valid(s) && Contains(s.outputs, key) && Get(s.outputs, key).value.enabled
    requires Agrees(s, cfg1)
    requires DisableOutput(s, key, Some(cfg1), accept1).ok
    ensures var s' := DisableOutput(s, key, Some(cfg1), accept1).state;
            Contains(s'.outputs, key) &&
            (Agrees(s', cfg2) && EnableOutput(s', key, Some(cfg2), accept2).ok ==>
               EnableOutput(s', key, Some(cfg2), accept2).state == s)
  {
    var o := Get(s.outputs, key).value;
    DisableWithAgreeingConfig(s, key, cfg1, accept1);
    var s' := Flip(s, key, false);
    FlipValid(s, key, false);
    if Agrees(s', cfg2) && EnableOutput(s', key, Some(cfg2), accept2).ok {
      EnableWithAgreeingConfig(s', key, cfg2, accept2);
      PutPut(s.outputs, key, o.(enabled := false), o.(enabled := true));
      assert o.(enabled := true) == o;
      PutSame(s.outputs, key, o);
    }
  }

  /**
    What a toggle submits when KScreen reports the stored outputs with their
    stored flags. Every output gets the flag the engine now holds for it.
    Every other output is moved by the offset that keeps the enabled
    outputs anchored at the total screen's corner (AnchoredToTotalScreen),
    while the toggled output keeps the position KScreen reports, because
    its flag disagrees. Every enabled output gets its remembered priority
    minus the shift that keeps the smallest priority in place
    (ShiftedPrioritiesKeepMinimum).
   */
  lemma SubmittedConfig(s: KState, key: nat, flag: bool, cfg: Config, accept: Config -> bool)
    requires Valid(s) && Contains(s.outputs, key) && InSync(s, cfg)
    ensures var o := Get(s.outputs, key).value;
            var s1 := Flip(s, key, flag);
            var a := Apply(s1, o.kind.handle, o.enabled, Some(cfg), accept);
            a.submitted.Some? && |a.submitted.value| == |cfg|
            && forall i :: 0 <= i < |cfg| ==>
                 Sent(a.submitted.value[i], cfg[i], Get(s1.outputs, cfg[i].id), Anchor(s1), Shift(s1),
                      cfg[i].id == key && flag != o.enabled)
  {
    var o := Get(s.outputs, key).value;
    var s1 := Flip(s, key, flag);
    FlipAgrees(s, key, flag, cfg);
    ApplySubmits(s1, o.kind.handle, o.enabled, cfg, accept);
    SentAll(s, key, flag, cfg, Offset(s1), Shift(s1));
  }

  /** From an agreeing configuration, the configuration update submits the rewritten configuration. */
  lemma ApplySubmits(s1: KState, handle: nat, before: bool, cfg: Config, accept: Config -> bool)
    requires Sorted(s1.outputs) && Agrees(s1, cfg)
    ensures Apply(s1, handle, before, Some(cfg), accept).submitted
              == Some(Adjust(s1.outputs, cfg, Offset(s1), Shift(s1)))
  {
    RefreshAgrees(s1, cfg);
  }

  lemma SentAll(s: KState, key: nat, flag: bool, cfg: Config, offset: Point, shift: U32)
    requires Valid(s) && Contains(s.outputs, key) && InSync(s, cfg)
    ensures var o := Get(s.outputs, key).value;
            var s1 := Flip(s, key, flag);
            var sub := Adjust(s1.outputs, cfg, offset, shift);
            forall i :: 0 <= i < |cfg| ==>
              Sent(sub[i], cfg[i], Get(s1.outputs, cfg[i].id), Sub(Point(0, 0), offset), shift,
                   cfg[i].id == key && flag != o.enabled)
  {
    var o := Get(s.outputs, key).value;
    var s1 := Flip(s, key, flag);
    forall i | 0 <= i < |cfg|
      ensures Sent(Adjust(s1.outputs, cfg, offset, shift)[i], cfg[i], Get(s1.outputs, cfg[i].id),
                   Sub(Point(0, 0), offset), shift, cfg[i].id == key && flag != o.enabled)
    {
      assert Listed(s, cfg[i]);
      assert cfg[i].enabled == Get(s.outputs, cfg[i].id).value.enabled;
      assert cfg[i].id != key ==> Get(s1.outputs, cfg[i].id) == Get(s.outputs, cfg[i].id);
      AdjustAgreeing(s1.outputs, cfg[i], offset, shift, cfg[i].id == key && flag != o.enabled);
    }
  }

  /**
    `sent` is `info` as a toggle rewrites it for the stored output `rec`:
    same id and name, the stored flag, the remembered position moved by `d`
    unless the flag was flipped (then KScreen's position stays), and for an
    enabled output the remembered priority lowered by `shift`.
   */
  ghost predicate Sent(sent: KOutputInfo, info: KOutputInfo, stored: Option<Output>, d: Point, shift: U32, flipped: bool) {
    stored.Some? && var rec := stored.value;
    rec.kind.KScreen?
    && sent.id == info.id && sent.name == info.name && sent.connected == info.connected
    && sent.enabled == rec.enabled
    && (!flipped ==> sent.pos == Translate(rec.kind.rect, d).TopLeft())
    && (flipped ==> sent.pos == info.pos)
    && (sent.enabled ==> sent.priority == U32Sub(rec.kind.priority, shift))
  }

  lemma AdjustAgreeing(outs: Entries<Output>, info: KOutputInfo, offset: Point, shift: U32, flipped: bool)
    requires Contains(outs, info.id) && Get(outs, info.id).value.kind.KScreen?
    requires info.enabled == Get(outs, info.id).value.enabled <==> !flipped
    ensures Sent(AdjustOutput(outs, info, offset, shift), info, Get(outs, info.id),
                 Sub(Point(0, 0), offset), shift, flipped)
  {
  }

  /**
    KScreenResources::getCurrent(), which create(forceBackend) returns: no
    backend when the configuration cannot be read, otherwise one whose
    output map is refreshed from it starting empty.
   */
  function Create(current: Option<Config>): (r: Option<KState>)
    ensures r.None? <==> current.None?
    ensures r.Some? ==> Valid(r.value) && forall k :: Contains(r.value.outputs, k) ==> k in Ids(current.value)
  {
    match current
    case None => None
    case Some(cfg) =>
      RefreshValid(KState([], 0), cfg);
      Some(Refresh(KState([], 0), cfg))
  }

  /** KScreenResources::refreshOutputs(): nothing happens when the configuration cannot be read. */
  function RefreshFromBackend(s: KState, current: Option<Config>): (r: KState)
    requires Sorted(s.outputs)
    ensures current.None? ==> r == s
    ensures current.Some? ==> r == Refresh(s, current.value)
  {
    match current
    case None => s
    case Some(cfg) => Refresh(s, cfg)
  }

  /** No two outputs of the configuration share an id or a name. */
  predicate Distinct(cfg: Config) {
    forall i, j :: 0 <= i < j < |cfg| ==> cfg[i].id != cfg[j].id && cfg[i].name != cfg[j].name
  }

  /** No stored output has the id or the name of an output of `cfg`. */
  predicate Fresh(m: Entries<Output>, cfg: Config) {
    forall j, i :: 0 <= j < |m| && 0 <= i < |cfg| ==> m[j].0 != cfg[i].id && m[j].1.name.Chars() != cfg[i].name
  }

  /** Refreshing with an output that matches no stored output builds a new object for it. */
  lemma {:induction false} FreshOne(t: KState, cfg: Config)
    requires Sorted(t.outputs) && Fresh(t.outputs, cfg) && |cfg| > 0
    ensures RefreshOne(t, cfg[0]) == KState(Put(t.outputs, cfg[0].id, KScreenOutput.FromInfo(t.nextHandle, Some(cfg[0]))),
                                            t.nextHandle + 1)
  {
    var info := cfg[0];
    if Contains(t.outputs, info.id) {
      var j := KeyPosition(t.outputs, info.id);
      assert false;
    }
    var n := FirstNamed(t.outputs, info.name);
    if n < |t.outputs| {
      assert false;
    }
  }

  lemma {:induction false} DistinctTail(cfg: Config)
    requires Distinct(cfg) && |cfg| > 0
    ensures Distinct(cfg[1..])
  {
    forall i, j | 0 <= i < j < |cfg| - 1
      ensures cfg[1..][i].id != cfg[1..][j].id && cfg[1..][i].name != cfg[1..][j].name
    {
      assert cfg[1..][i] == cfg[i + 1] && cfg[1..][j] == cfg[j + 1];
    }
  }

  /** After a fresh output is added, the remaining outputs are still fresh. */
  lemma {:induction false} FreshRest(m: Entries<Output>, cfg: Config, v: Output)
    requires Sorted(m) && Distinct(cfg) && Fresh(m, cfg) && |cfg| > 0
    requires v.name.Chars() == cfg[0].name
    ensures Fresh(Put(m, cfg[0].id, v), cfg[1..])
  {
    var m' := Put(m, cfg[0].id, v);
    var rest := cfg[1..];
    forall j, i | 0 <= j < |m'| && 0 <= i < |rest|
      ensures m'[j].0 != rest[i].id && m'[j].1.name.Chars() != rest[i].name
    {
      assert rest[i] == cfg[i + 1];
      PutEntries(m, cfg[0].id, v, j);
    }
  }

  /** The state after refreshing with the first of some fresh outputs. */
  function AddFresh(t: KState, info: KOutputInfo): (r: KState)
    requires Sorted(t.outputs)
    ensures Sorted(r.outputs) && r.nextHandle == t.nextHandle + 1
    ensures Get(r.outputs, info.id) == Some(KScreenOutput.FromInfo(t.nextHandle, Some(info)))
    ensures forall k :: k != info.id ==> Get(r.outputs, k) == Get(t.outputs, k)
  {
    KState(Put(t.outputs, info.id, KScreenOutput.FromInfo(t.nextHandle, Some(info))), t.nextHandle + 1)
  }

  lemma {:induction false} FreshStep(t: KState, cfg: Config)
    requires Sorted(t.outputs) && Distinct(cfg) && Fresh(t.outputs, cfg) && |cfg| > 0
    ensures RefreshAll(t, cfg) == RefreshAll(AddFresh(t, cfg[0]), cfg[1..])
    ensures Distinct(cfg[1..]) && Fresh(AddFresh(t, cfg[0]).outputs, cfg[1..])
  {
    var t1 := RefreshOne(t, cfg[0]);
    assert t1 == AddFresh(t, cfg[0]) by { FreshOne(t, cfg); }
    assert RefreshAll(t, cfg) == RefreshAll(t1, cfg[1..]);
    DistinctTail(cfg);
    var v := KScreenOutput.FromInfo(t.nextHandle, Some(cfg[0]));
    assert v.name.Chars() == cfg[0].name;
    FreshRest(t.outputs, cfg, v);
  }

  /** Adds a new object for every output of `cfg`, in configuration order. */
  function AddAllFresh(t: KState, cfg: Config): (r: KState)
    requires Sorted(t.outputs)
    ensures Sorted(r.outputs)
    ensures r.nextHandle == t.nextHandle + |cfg|
    decreases |cfg|
  {
    if |cfg| == 0 then t else AddAllFresh(AddFresh(t, cfg[0]), cfg[1..])
  }

  /** Refreshing with outputs that match no stored output only adds new objects. */
  lemma {:induction false} RefreshAllAddsFresh(t: KState, cfg: Config)
    requires Sorted(t.outputs) && Distinct(cfg) && Fresh(t.outputs, cfg)
    ensures RefreshAll(t, cfg) == AddAllFresh(t, cfg)
    decreases |cfg|
  {
    if |cfg| > 0 {
      FreshStep(t, cfg);
      RefreshAllAddsFresh(AddFresh(t, cfg[0]), cfg[1..]);
    }
  }

  /** Adding new objects under other ids leaves an entry alone. */
  lemma {:induction false} AddAllFreshKeeps(t: KState, cfg: Config, k: nat)
    requires Sorted(t.outputs)
    requires forall i :: 0 <= i < |cfg| ==> cfg[i].id != k
    ensures Get(AddAllFresh(t, cfg).outputs, k) == Get(t.outputs, k)
    decreases |cfg|
  {
    if |cfg| > 0 {
      assert cfg[0].id != k;
      forall i | 0 <= i < |cfg| - 1
        ensures cfg[1..][i].id != k
      {
        assert cfg[1..][i] == cfg[i + 1];
      }
      AddAllFreshKeeps(AddFresh(t, cfg[0]), cfg[1..], k);
    }
  }

  /** The outputs after position `i` all have ids other than that of the output at `i`. */
  predicate LastWithId(cfg: Config, i: nat)
    requires i < |cfg|
  {
    forall j :: i < j < |cfg| ==> cfg[j].id != cfg[i].id
  }

  lemma LastWithIdTail(cfg: Config, i: nat)
    requires 0 < i < |cfg| && LastWithId(cfg, i)
    ensures cfg[1..][i - 1] == cfg[i] && LastWithId(cfg[1..], i - 1)
  {
    forall j | i - 1 < j < |cfg| - 1
      ensures cfg[1..][j].id != cfg[1..][i - 1].id
    {
      assert cfg[1..][j] == cfg[j + 1];
    }
  }

  /**
    The object stored under the id of `info` is one built from `info`:
    apart from its identity handle, it is the object FromInfo builds.
   */
  predicate BuiltFrom(m: Entries<Output>, info: KOutputInfo) {
    match Get(m, info.id)
    case None => false
    case Some(o) => o.kind.KScreen? && o.(kind := o.kind.(handle := 0)) == KScreenOutput.FromInfo(0, Some(info))
  }

  /** The object added for the first output is built from it. */
  lemma {:induction false} AddAllFreshFirst(t: KState, cfg: Config)
    requires Sorted(t.outputs) && 0 < |cfg| && LastWithId(cfg, 0)
    ensures BuiltFrom(AddAllFresh(t, cfg).outputs, cfg[0])
  {
    var t' := AddFresh(t, cfg[0]);
    forall j | 0 <= j < |cfg| - 1
      ensures cfg[1..][j].id != cfg[0].id
    {
      assert cfg[1..][j] == cfg[j + 1];
    }
    AddAllFreshKeeps(t', cfg[1..], cfg[0].id);
    assert BuiltFrom(t'.outputs, cfg[0]);
  }

  /**
    The object stored for the output at position `i` is built from it,
    unless a later output has its id.
   */
  lemma {:induction false} AddAllFreshAt(t: KState, cfg: Config, i: nat)
    requires Sorted(t.outputs) && i < |cfg| && LastWithId(cfg, i)
    ensures BuiltFrom(AddAllFresh(t, cfg).outputs, cfg[i])
    decreases |cfg|, 1
  {
    if i == 0 {
      AddAllFreshFirst(t, cfg);
    } else {
      AddAllFreshLater(t, cfg, i);
    }
  }

  /** The induction step of AddAllFreshAt, for a position after the first. */
  lemma {:induction false} AddAllFreshLater(t: KState, cfg: Config, i: nat)
    requires Sorted(t.outputs) && 0 < i < |cfg| && LastWithId(cfg, i)
    ensures BuiltFrom(AddAllFresh(t, cfg).outputs, cfg[i])
    decreases |cfg|, 0
  {
    LastWithIdTail(cfg, i);
    AddAllFreshAt(AddFresh(t, cfg[0]), cfg[1..], i - 1);
    BuiltFromStep(t, cfg, i);
  }

  /** What refreshing with the tail stores for its output `i` - 1 is what the whole refresh stores for `i`. */
  lemma BuiltFromStep(t: KState, cfg: Config, i: nat)
    requires Sorted(t.outputs) && 0 < i < |cfg|
    requires BuiltFrom(AddAllFresh(AddFresh(t, cfg[0]), cfg[1..]).outputs, cfg[1..][i - 1])
    ensures BuiltFrom(AddAllFresh(t, cfg).outputs, cfg[i])
  {
    BuiltFromShifted(AddAllFresh(AddFresh(t, cfg[0]), cfg[1..]).outputs, cfg, i);
    BuiltFromUnfold(t, cfg, i);
  }

  /** The output at position `i` of the tail is the one at `i` + 1 of the configuration. */
  lemma BuiltFromShifted(m: Entries<Output>, cfg: Config, i: nat)
    requires 0 < i < |cfg| && BuiltFrom(m, cfg[1..][i - 1])
    ensures BuiltFrom(m, cfg[i])
  {
  }

  /** What refreshing with the tail stores is what refreshing with the whole configuration stores. */
  lemma BuiltFromUnfold(t: KState, cfg: Config, i: nat)
    requires Sorted(t.outputs) && 0 < i < |cfg|
    requires BuiltFrom(AddAllFresh(AddFresh(t, cfg[0]), cfg[1..]).outputs, cfg[i])
    ensures BuiltFrom(AddAllFresh(t, cfg).outputs, cfg[i])
  {
  }

  /** Restricting to a list that holds the id of `info` keeps what is stored for it. */
  lemma RestrictKeepsBuilt(m: Entries<Output>, ks: seq<nat>, info: KOutputInfo)
    requires BuiltFrom(m, info) && info.id in ks
    ensures BuiltFrom(Restrict(m, ks), info)
  {
    GetRestrict(m, ks, info.id);
  }

  /** The refresh from an empty map builds an object for every output of a configuration without clashes. */
  lemma {:induction false} RefreshFromEmpty(cfg: Config, i: nat)
    requires Distinct(cfg) && i < |cfg|
    ensures BuiltFrom(RefreshAll(KState([], 0), cfg).outputs, cfg[i])
  {
    RefreshAllAddsFresh(KState([], 0), cfg);
    AddAllFreshAt(KState([], 0), cfg, i);
  }

  /**
    A backend created from a configuration whose outputs have distinct ids
    and names holds exactly those outputs, each the object built from its
    KScreen output.
   */
  lemma CreateBuildsEveryOutput(cfg: Config)
    requires Distinct(cfg)
    ensures Create(Some(cfg)).Some?
    ensures var r := Create(Some(cfg)).value;
            (forall i :: 0 <= i < |cfg| ==> BuiltFrom(r.outputs, cfg[i]))
            && (forall k :: Contains(r.outputs, k) <==> k in Ids(cfg))
  {
    var t := RefreshAll(KState([], 0), cfg);
    var r := Create(Some(cfg)).value;
    assert r.outputs == Restrict(t.outputs, Ids(cfg));
    forall i | 0 <= i < |cfg|
      ensures BuiltFrom(r.outputs, cfg[i])
    {
      RefreshFromEmpty(cfg, i);
      RestrictKeepsBuilt(t.outputs, Ids(cfg), cfg[i]);
    }
    forall k | k in Ids(cfg)
      ensures Contains(r.outputs, k)
    {
      var i :| 0 <= i < |cfg| && Ids(cfg)[i] == k;
      assert BuiltFrom(r.outputs, cfg[i]);
    }
  }

}
