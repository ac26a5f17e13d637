/**
  QRRScreenResources (qrrscreenresources.cpp): the older X11 variant of the
  toggle engine. Outputs are kept in a list in the order the screen
  resources list them, and an output is identified by its position there.

  Compared with XRandRScreenResources it sets the flag before computing the
  screens, never sets it back when the server refuses a request, always
  grabs the server, and has no guard against switching off the last output.
 */
module QrrScreenResources {
  import opened Geometry
  import opened OrdMap
  import opened QrrCrtc
  import opened QrrOutput
  import Xrandr

  datatype State = State(outputs: seq<Output>, crtcs: Entries<Crtc>)

  predicate Valid(s: State) {
    Sorted(s.crtcs)
  }

  /** What enableOutput / disableOutput leave behind, answer, and send to the server. */
  datatype Outcome = Outcome(state: State, ok: bool, trace: seq<Xrandr.Event>)

  /** output(id): the position of the first output listed with that id, or None. */
  function Find(outs: seq<Output>, id: nat): (r: Option<nat>)
    ensures r.Some? ==> r.value < |outs| && outs[r.value].id == id
                        && forall j :: 0 <= j < r.value ==> outs[j].id != id
    ensures r.None? <==> forall j :: 0 <= j < |outs| ==> outs[j].id != id
  {
    if |outs| == 0 then None
    else if outs[0].id == id then Some(0)
    else match Find(outs[1..], id)
      case None => None
      case Some(j) => Some(j + 1)
  }

  /** Any position holding the id is at or after the one Find returns. */
  lemma FindFirst(outs: seq<Output>, id: nat, i: nat)
    requires i < |outs| && outs[i].id == id
    ensures Find(outs, id).Some? && Find(outs, id).value <= i
  {
  }

  /** Looking up an id through a longer list finds the same output when the front already lists it. */
  lemma FindPrefix(a: seq<Output>, b: seq<Output>, id: nat)
    requires Find(a, id).Some?
    ensures Find(a + b, id) == Find(a, id)
  {
    var p := Find(a, id).value;
    assert (a + b)[p] == a[p];
    FindFirst(a + b, id, p);
    var q := Find(a + b, id).value;
    assert (a + b)[q] == a[q];
  }

  /**
    The outputs refreshOutputs builds for the listed ids, in order, each
    read with `info`, and the CRTC cache afterwards.
   */
  function ReadOutputs(crtcs: Entries<Crtc>, ids: seq<nat>, info: nat -> Option<Xrandr.OutputInfo>,
                       fetch: nat -> Option<Xrandr.CrtcInfo>): (r: State)
    requires Sorted(crtcs)
    ensures Valid(r)
    ensures |r.outputs| == |ids|
    ensures forall i :: 0 <= i < |ids| ==> r.outputs[i].id == ids[i]
    decreases |ids|
  {
    if |ids| == 0 then State([], crtcs)
    else
      var n := |ids| - 1;
      var p := ReadOutputs(crtcs, ids[..n], info, fetch);
      var b := FromInfo(p.crtcs, ids[n], info(ids[n]), fetch);
      AppendKeepsIds(p.outputs, b.output, ids);
      State(p.outputs + [b.output], b.cache)
  }

  /** Appending the output read for the last id keeps every output under its id. */
  lemma AppendKeepsIds(ps: seq<Output>, o: Output, ids: seq<nat>)
    requires |ids| > 0 && |ps| == |ids| - 1 && o.id == ids[|ids| - 1]
    requires forall i :: 0 <= i < |ps| ==> ps[i].id == ids[..|ids| - 1][i]
    ensures forall i :: 0 <= i < |ids| ==> (ps + [o])[i].id == ids[i]
  {
  }

  /** Whether the reply for `id` names a CRTC. */
  predicate NamesCrtc(info: nat -> Option<Xrandr.OutputInfo>, id: nat) {
    info(id).Some? && info(id).value.crtc != Xrandr.None
  }

  /** Appending the output read for the last id keeps every flag matching its reply. */
  lemma AppendKeepsEnabled(ps: seq<Output>, o: Output, ids: seq<nat>, info: nat -> Option<Xrandr.OutputInfo>)
    requires |ids| > 0 && |ps| == |ids| - 1 && (o.enabled <==> NamesCrtc(info, ids[|ids| - 1]))
    requires forall i :: 0 <= i < |ps| ==> (ps[i].enabled <==> NamesCrtc(info, ids[..|ids| - 1][i]))
    ensures forall i :: 0 <= i < |ids| ==> ((ps + [o])[i].enabled <==> NamesCrtc(info, ids[i]))
  {
  }

  /** Every output read is enabled exactly when its reply names a CRTC. */
  lemma {:induction false} ReadOutputsEnabled(crtcs: Entries<Crtc>, ids: seq<nat>,
                                              info: nat -> Option<Xrandr.OutputInfo>,
                                              fetch: nat -> Option<Xrandr.CrtcInfo>)
    requires Sorted(crtcs)
    ensures var r := ReadOutputs(crtcs, ids, info, fetch);
            forall i :: 0 <= i < |ids| ==> (r.outputs[i].enabled <==> NamesCrtc(info, ids[i]))
    decreases |ids|
  {
    if |ids| > 0 {
      var n := |ids| - 1;
      var p := ReadOutputs(crtcs, ids[..n], info, fetch);
      ReadOutputsEnabled(crtcs, ids[..n], info, fetch);
      var b := FromInfo(p.crtcs, ids[n], info(ids[n]), fetch);
      AppendKeepsEnabled(p.outputs, b.output, ids, info);
    }
  }

  /** Reading outputs only adds CRTCs to the cache. */
  lemma {:induction false} ReadOutputsGrowCache(crtcs: Entries<Crtc>, ids: seq<nat>,
                                                info: nat -> Option<Xrandr.OutputInfo>,
                                                fetch: nat -> Option<Xrandr.CrtcInfo>, k: nat)
    requires Sorted(crtcs) && Contains(crtcs, k)
    ensures Contains(ReadOutputs(crtcs, ids, info, fetch).crtcs, k)
    decreases |ids|
  {
    if |ids| > 0 {
      var n := |ids| - 1;
      ReadOutputsGrowCache(crtcs, ids[..n], info, fetch, k);
    }
  }

  /** Every enabled output read has its CRTC cached. */
  lemma {:induction false} ReadOutputsCached(crtcs: Entries<Crtc>, ids: seq<nat>,
                                             info: nat -> Option<Xrandr.OutputInfo>,
                                             fetch: nat -> Option<Xrandr.CrtcInfo>, i: nat)
    requires Sorted(crtcs) && i < |ids|
    ensures var r := ReadOutputs(crtcs, ids, info, fetch);
            r.outputs[i].enabled ==> Contains(r.crtcs, r.outputs[i].crtcId)
    decreases |ids|
  {
    var n := |ids| - 1;
    var p := ReadOutputs(crtcs, ids[..n], info, fetch);
    var b := FromInfo(p.crtcs, ids[n], info(ids[n]), fetch);
    var r := ReadOutputs(crtcs, ids, info, fetch);
    assert r == State(p.outputs + [b.output], b.cache);
    if i < n {
      assert r.outputs[i] == p.outputs[i];
      ReadOutputsCached(crtcs, ids[..n], info, fetch, i);
      if p.outputs[i].enabled {
        assert Contains(p.crtcs, p.outputs[i].crtcId);
      }
    }
  }

  /**
    refreshOutputs() as written: the old outputs are deleted but stay in
    the list, and the new ones are appended after them.
   */
  function RefreshAsWritten(s: State, ids: seq<nat>, info: nat -> Option<Xrandr.OutputInfo>,
                            fetch: nat -> Option<Xrandr.CrtcInfo>): (r: State)
    requires Valid(s)
    ensures Valid(r)
    ensures |r.outputs| == |s.outputs| + |ids|
    ensures r.outputs[..|s.outputs|] == s.outputs
  {
    var built := ReadOutputs(s.crtcs, ids, info, fetch);
    State(s.outputs + built.outputs, built.crtcs)
  }

  /**
    The discrepancy: after a refresh as written, output(id) of an id that
    was listed before still finds the deleted output, never the fresh one.
   */
  lemma DeletedOutputShadowsFresh(s: State, ids: seq<nat>, info: nat -> Option<Xrandr.OutputInfo>,
                                  fetch: nat -> Option<Xrandr.CrtcInfo>, id: nat)
    requires Valid(s) && Find(s.outputs, id).Some?
    ensures Find(RefreshAsWritten(s, ids, info, fetch).outputs, id) == Find(s.outputs, id)
    ensures Find(RefreshAsWritten(s, ids, info, fetch).outputs, id).value < |s.outputs|
  {
    FindPrefix(s.outputs, ReadOutputs(s.crtcs, ids, info, fetch).outputs, id);
  }

  /** refreshOutputs() with the list cleared after the old outputs are deleted. */
  function Refresh(s: State, ids: seq<nat>, info: nat -> Option<Xrandr.OutputInfo>,
                   fetch: nat -> Option<Xrandr.CrtcInfo>): (r: State)
    requires Valid(s)
    ensures Valid(r)
    ensures forall id :: Find(r.outputs, id).Some? <==> id in ids
  {
    var r := ReadOutputs(s.crtcs, ids, info, fetch);
    forall id
      ensures Find(r.outputs, id).Some? <==> id in ids
    {
      if id in ids {
        var i :| 0 <= i < |ids| && ids[i] == id;
        FindFirst(r.outputs, id, i);
      }
    }
    r
  }

  /**
    After a refresh every listed id finds the output read for it: the one
    read for the first occurrence of the id.
   */
  lemma RefreshFindsFresh(s: State, ids: seq<nat>, info: nat -> Option<Xrandr.OutputInfo>,
                          fetch: nat -> Option<Xrandr.CrtcInfo>, i: nat)
    requires Valid(s) && i < |ids| && forall j :: 0 <= j < i ==> ids[j] != ids[i]
    ensures Find(Refresh(s, ids, info, fetch).outputs, ids[i]) == Some(i)
  {
    var r := Refresh(s, ids, info, fetch);
    FindFirst(r.outputs, ids[i], i);
  }

  /** outputs(refresh): the list is rebuilt when it is empty or a refresh is asked for. */
  function Outputs(s: State, refresh: bool, ids: seq<nat>, info: nat -> Option<Xrandr.OutputInfo>,
                   fetch: nat -> Option<Xrandr.CrtcInfo>): (r: State)
    requires Valid(s)
    ensures Valid(r)
    ensures |s.outputs| > 0 && !refresh ==> r == s
    ensures |s.outputs| == 0 || refresh ==> r == Refresh(s, ids, info, fetch)
  {
    if |s.outputs| == 0 || refresh then Refresh(s, ids, info, fetch) else s
  }

  /**
    Once the list is filled, asking for it again without a refresh returns
    it as it is, whatever the server would answer now.
   */
  lemma OutputsCached(s: State, refresh: bool, ids: seq<nat>, info: nat -> Option<Xrandr.OutputInfo>,
                      fetch: nat -> Option<Xrandr.CrtcInfo>, ids': seq<nat>,
                      info': nat -> Option<Xrandr.OutputInfo>, fetch': nat -> Option<Xrandr.CrtcInfo>)
    requires Valid(s) && |ids| > 0
    ensures var r := Outputs(s, refresh, ids, info, fetch);
            Outputs(r, false, ids', info', fetch') == r
  {
    var r := Outputs(s, refresh, ids, info, fetch);
    if |s.outputs| == 0 || refresh {
      assert ids[0] in ids;
      assert Find(r.outputs, ids[0]).Some?;
    }
  }

  /** An output whose CRTC is in the cache (and, if asked, that is enabled). */
  predicate Counted(o: Output, crtcs: Entries<Crtc>, onlyEnabled: bool) {
    Contains(crtcs, o.crtcId) && (!onlyEnabled || o.enabled)
  }

  function CrtcRect(o: Output, crtcs: Entries<Crtc>): Rect
    requires Contains(crtcs, o.crtcId)
  {
    Get(crtcs, o.crtcId).value.Rect()
  }

  /** The cached CRTC rectangles of the counted outputs, in list order. */
  function ScreenRects(outs: seq<Output>, crtcs: Entries<Crtc>, onlyEnabled: bool): seq<Rect>
    decreases |outs|
  {
    if |outs| == 0 then []
    else
      var n := |outs| - 1;
      ScreenRects(outs[..n], crtcs, onlyEnabled)
      + (if Counted(outs[n], crtcs, onlyEnabled) then [CrtcRect(outs[n], crtcs)] else [])
  }

  /** computeTotalScreen: the union over every output whose CRTC is cached. */
  function TotalScreen(s: State): Rect {
    UnionAll(ScreenRects(s.outputs, s.crtcs, false))
  }

  /** computeScreen: the union over the enabled outputs whose CRTC is cached. */
  function Screen(s: State): Rect {
    UnionAll(ScreenRects(s.outputs, s.crtcs, true))
  }

  lemma {:induction false} EnabledRectsAmongAll(outs: seq<Output>, crtcs: Entries<Crtc>)
    ensures forall r :: r in ScreenRects(outs, crtcs, true) ==> r in ScreenRects(outs, crtcs, false)
    decreases |outs|
  {
    if |outs| > 0 {
      EnabledRectsAmongAll(outs[..|outs| - 1], crtcs);
    }
  }

  lemma {:induction false} CountedRectListed(outs: seq<Output>, crtcs: Entries<Crtc>, onlyEnabled: bool, i: nat)
    requires i < |outs| && Counted(outs[i], crtcs, onlyEnabled)
    ensures CrtcRect(outs[i], crtcs) in ScreenRects(outs, crtcs, onlyEnabled)
    decreases |outs|
  {
    var n := |outs| - 1;
    if i < n {
      assert outs[..n][i] == outs[i];
      CountedRectListed(outs[..n], crtcs, onlyEnabled, i);
    }
  }

  /**
    The screen of the enabled outputs lies within the total screen, and the
    total screen covers the CRTC of every output whose CRTC is cached.
   */
  lemma {:induction false} ListedRectCounted(outs: seq<Output>, crtcs: Entries<Crtc>, onlyEnabled: bool, r: Rect)
    requires r in ScreenRects(outs, crtcs, onlyEnabled)
    ensures exists i :: 0 <= i < |outs| && Counted(outs[i], crtcs, onlyEnabled) && CrtcRect(outs[i], crtcs) == r
    decreases |outs|
  {
    var n := |outs| - 1;
    if !(Counted(outs[n], crtcs, onlyEnabled) && CrtcRect(outs[n], crtcs) == r) {
      ListedRectCounted(outs[..n], crtcs, onlyEnabled, r);
      var i :| 0 <= i < n && Counted(outs[..n][i], crtcs, onlyEnabled) && CrtcRect(outs[..n][i], crtcs) == r;
      assert outs[i] == outs[..n][i];
    }
  }

  /** A rectangle that contains every counted CRTC rectangle contains their union. */
  lemma RectsLeast(outs: seq<Output>, crtcs: Entries<Crtc>, onlyEnabled: bool, c: Rect)
    requires forall i :: 0 <= i < |outs| && Counted(outs[i], crtcs, onlyEnabled) ==> Within(CrtcRect(outs[i], crtcs), c)
    ensures Within(UnionAll(ScreenRects(outs, crtcs, onlyEnabled)), c)
  {
    var rs := ScreenRects(outs, crtcs, onlyEnabled);
    forall j | 0 <= j < |rs|
      ensures Within(rs[j], c)
    {
      ListedRectCounted(outs, crtcs, onlyEnabled, rs[j]);
    }
    UnionAllLeast(rs, c);
  }

  /** computeTotalScreen and computeScreen are the least rectangles covering the CRTC rectangles they count. */
  lemma ScreensLeast(s: State, c: Rect)
    ensures (forall i :: 0 <= i < |s.outputs| && Counted(s.outputs[i], s.crtcs, false) ==>
               Within(CrtcRect(s.outputs[i], s.crtcs), c)) ==> Within(TotalScreen(s), c)
    ensures (forall i :: 0 <= i < |s.outputs| && Counted(s.outputs[i], s.crtcs, true) ==>
               Within(CrtcRect(s.outputs[i], s.crtcs), c)) ==> Within(Screen(s), c)
  {
    if forall i :: 0 <= i < |s.outputs| && Counted(s.outputs[i], s.crtcs, false) ==> Within(CrtcRect(s.outputs[i], s.crtcs), c) {
      RectsLeast(s.outputs, s.crtcs, false, c);
    }
    if forall i :: 0 <= i < |s.outputs| && Counted(s.outputs[i], s.crtcs, true) ==> Within(CrtcRect(s.outputs[i], s.crtcs), c) {
      RectsLeast(s.outputs, s.crtcs, true, c);
    }
  }

  lemma ScreenWithinTotal(s: State)
    ensures Within(Screen(s), TotalScreen(s))
    ensures forall i :: 0 <= i < |s.outputs| && Counted(s.outputs[i], s.crtcs, false) ==>
              Within(CrtcRect(s.outputs[i], s.crtcs), TotalScreen(s))
  {
    EnabledRectsAmongAll(s.outputs, s.crtcs);
    UnionAllMonotone(ScreenRects(s.outputs, s.crtcs, true), ScreenRects(s.outputs, s.crtcs, false));
    forall i | 0 <= i < |s.outputs| && Counted(s.outputs[i], s.crtcs, false)
      ensures Within(CrtcRect(s.outputs[i], s.crtcs), TotalScreen(s))
    {
      CountedRectListed(s.outputs, s.crtcs, false, i);
      UnionAllMonotone([CrtcRect(s.outputs[i], s.crtcs)], ScreenRects(s.outputs, s.crtcs, false));
    }
  }

  /** The state with the flag of the output at position `t` set. */
  function SetFlag(s: State, t: nat, flag: bool): (r: State)
    requires t < |s.outputs|
    ensures r.crtcs == s.crtcs && |r.outputs| == |s.outputs|
    ensures r.outputs[t].enabled == flag && r.outputs[t].(enabled := s.outputs[t].enabled) == s.outputs[t]
    ensures forall i :: 0 <= i < |s.outputs| && i != t ==> r.outputs[i] == s.outputs[i]
  {
    s.(outputs := s.outputs[t := s.outputs[t].(enabled := flag)])
  }

  /** The flags play no part in computeTotalScreen. */
  lemma {:induction false} TotalIgnoresFlags(outs: seq<Output>, crtcs: Entries<Crtc>, t: nat, flag: bool)
    requires t < |outs|
    ensures ScreenRects(outs[t := outs[t].(enabled := flag)], crtcs, false) == ScreenRects(outs, crtcs, false)
    decreases |outs|
  {
    var n := |outs| - 1;
    var flipped := outs[t := outs[t].(enabled := flag)];
    if t < n {
      assert flipped[..n] == outs[..n][t := outs[t].(enabled := flag)];
      TotalIgnoresFlags(outs[..n], crtcs, t, flag);
    } else {
      assert flipped[..n] == outs[..n];
    }
  }

  /** updateCrtcOrigin keeps the attached outputs whose first listed output is enabled. */
  function KeepEnabled(outs: seq<Output>): nat -> bool {
    (id: nat) => var p := Find(outs, id); p.Some? && outs[p.value].enabled
  }

  /** updateCrtcOrigin(crtcId, newOrigin) as the request it sends. */
  function UpdateCrtcOrigin(s: State, id: nat, c: Crtc, origin: Point): (q: Xrandr.CrtcRequest)
    ensures q.crtc == id
    ensures forall o :: o in q.outputs <==>
              o in c.outputs && Find(s.outputs, o).Some? && s.outputs[Find(s.outputs, o).value].enabled
    ensures Subsequence(q.outputs, c.outputs)
    ensures q.outputs == [] ==> q == Xrandr.SetCrtcConfig(id, 0, 0, Xrandr.None, Xrandr.Rotate0, [])
    ensures q.outputs != [] ==> q.x == origin.x && q.y == origin.y && q.mode == c.mode && q.rotation == c.rotation
  {
    OriginRequest(id, c, origin, KeepEnabled(s.outputs))
  }

  /** The requests of the commit loop on `s1`: every cached CRTC, in key order. */
  function Commits(s1: State, total: Rect, screen: Rect): (reqs: seq<Xrandr.CrtcRequest>)
    ensures |reqs| == |s1.crtcs|
    ensures forall i :: 0 <= i < |s1.crtcs| ==>
              reqs[i] == UpdateCrtcOrigin(s1, s1.crtcs[i].0, s1.crtcs[i].1, NewOrigin(s1.crtcs[i].1, total, screen))
  {
    Requests(s1.crtcs, KeepEnabled(s1.outputs), total, screen)
  }

  /**
    The common part of enableOutput and disableOutput once the flag is set
    in `s1`: both screens computed on `s1`, every cached CRTC committed
    inside a server grab, and the flag kept whatever the server answers.
   */
  function CommitAll(s1: State, status: Xrandr.CrtcRequest -> nat): (r: Outcome)
    ensures r.state == s1
    ensures var reqs := Commits(s1, TotalScreen(s1), Screen(s1));
            r.trace == Bracket(true, reqs) && (r.ok <==> AllSucceed(reqs, status))
  {
    var reqs := Commits(s1, TotalScreen(s1), Screen(s1));
    Outcome(s1, AllSucceed(reqs, status), Bracket(true, reqs))
  }

  /** QRRScreenResources::enableOutput(out) for the output at position `t`. */
  function EnableOutput(s: State, t: nat, status: Xrandr.CrtcRequest -> nat): (r: Outcome)
    requires Valid(s) && t < |s.outputs|
    ensures Valid(r.state)
    ensures s.outputs[t].enabled ==> r == Outcome(s, true, [])
    ensures !s.outputs[t].enabled && !Contains(s.crtcs, s.outputs[t].crtcId) ==> r == Outcome(s, false, [])
    ensures !s.outputs[t].enabled && Contains(s.crtcs, s.outputs[t].crtcId) ==>
              r == CommitAll(SetFlag(s, t, true), status)
  {
    var o := s.outputs[t];
    if o.enabled then Outcome(s, true, [])
    else if !Contains(s.crtcs, o.crtcId) then Outcome(s, false, [])
    else CommitAll(SetFlag(s, t, true), status)
  }

  /**
    QRRScreenResources::disableOutput(out) for the output at position `t`.
    Nothing keeps it from switching off the last enabled output.
   */
  function DisableOutput(s: State, t: nat, status: Xrandr.CrtcRequest -> nat): (r: Outcome)
    requires Valid(s) && t < |s.outputs|
    ensures Valid(r.state)
    ensures !s.outputs[t].enabled ==> r == Outcome(s, true, [])
    ensures s.outputs[t].enabled && !Contains(s.crtcs, s.outputs[t].crtcId) ==> r == Outcome(s, false, [])
    ensures s.outputs[t].enabled && Contains(s.crtcs, s.outputs[t].crtcId) ==>
              r == CommitAll(SetFlag(s, t, false), status)
  {
    var o := s.outputs[t];
    if !o.enabled then Outcome(s, true, [])
    else if !Contains(s.crtcs, o.crtcId) then Outcome(s, false, [])
    else CommitAll(SetFlag(s, t, false), status)
  }

  /**
    QRROutput::toggle(): disableOutput when enabled, enableOutput otherwise.
    When the CRTC is cached the flag flips whatever the server answers, and
    the server is always grabbed; otherwise nothing happens and the answer
    is false.
   */
  function Toggle(s: State, t: nat, status: Xrandr.CrtcRequest -> nat): (r: Outcome)
    requires Valid(s) && t < |s.outputs|
    ensures Valid(r.state)
    ensures Contains(s.crtcs, s.outputs[t].crtcId) ==>
              r.state == SetFlag(s, t, !s.outputs[t].enabled)
              && |r.trace| >= 2 && r.trace[0] == Xrandr.GrabServer && r.trace[|r.trace| - 1] == Xrandr.UngrabServer
    ensures !Contains(s.crtcs, s.outputs[t].crtcId) ==> r == Outcome(s, false, [])
  {
    if s.outputs[t].enabled then DisableOutput(s, t, status) else EnableOutput(s, t, status)
  }

  /**
    Disabling an output and enabling it again gives back the output list
    and the cache, whatever the server answers to either.
   */
  lemma DisableThenEnableRestoresState(s: State, t: nat, status1: Xrandr.CrtcRequest -> nat,
                                       status2: Xrandr.CrtcRequest -> nat)
    requires Valid(s) && t < |s.outputs| && s.outputs[t].enabled && Contains(s.crtcs, s.outputs[t].crtcId)
    ensures var d := DisableOutput(s, t, status1);
            t < |d.state.outputs| && EnableOutput(d.state, t, status2).state == s
  {
    var s1 := SetFlag(s, t, false);
    assert SetFlag(s1, t, true).outputs == s.outputs;
  }

  /**
    With no guard, disabling the only enabled output goes ahead: the screen
    becomes null and every cached CRTC is switched off.
   */
  lemma DisableLastSwitchesAllOff(s: State, t: nat, status: Xrandr.CrtcRequest -> nat)
    requires Valid(s) && t < |s.outputs| && s.outputs[t].enabled && Contains(s.crtcs, s.outputs[t].crtcId)
    requires forall i :: 0 <= i < |s.outputs| && i != t ==> !s.outputs[i].enabled
    ensures var r := DisableOutput(s, t, status);
            Screen(r.state).IsNull()
            && forall i :: 0 <= i < |s.crtcs| ==>
                 r.trace[i + 1] == Xrandr.Commit(Xrandr.SetCrtcConfig(s.crtcs[i].0, 0, 0, Xrandr.None, Xrandr.Rotate0, []))
  {
    var s1 := SetFlag(s, t, false);
    forall i | 0 <= i < |s1.outputs|
      ensures !s1.outputs[i].enabled
    {
    }
    NoneEnabledNoRects(s1.outputs, s1.crtcs);
    var reqs := Commits(s1, TotalScreen(s1), Screen(s1));
    NoneEnabledRequestsOff(s1, TotalScreen(s1), Screen(s1));
    SwitchedOffTrace(s1.crtcs, reqs);
  }

  /** With no output enabled every request of the commit loop switches its CRTC off. */
  lemma NoneEnabledRequestsOff(s1: State, total: Rect, screen: Rect)
    requires forall i :: 0 <= i < |s1.outputs| ==> !s1.outputs[i].enabled
    ensures forall i :: 0 <= i < |s1.crtcs| ==>
              Commits(s1, total, screen)[i] == Xrandr.SetCrtcConfig(s1.crtcs[i].0, 0, 0, Xrandr.None, Xrandr.Rotate0, [])
  {
    var reqs := Commits(s1, total, screen);
    forall i | 0 <= i < |s1.crtcs|
      ensures reqs[i] == Xrandr.SetCrtcConfig(s1.crtcs[i].0, 0, 0, Xrandr.None, Xrandr.Rotate0, [])
    {
      NoneEnabledRequest(s1, reqs[i].outputs, reqs[i]);
    }
  }

  lemma SwitchedOffTrace(cs: Entries<Crtc>, reqs: seq<Xrandr.CrtcRequest>)
    requires |reqs| == |cs|
    requires forall i :: 0 <= i < |cs| ==> reqs[i] == Xrandr.SetCrtcConfig(cs[i].0, 0, 0, Xrandr.None, Xrandr.Rotate0, [])
    ensures forall i :: 0 <= i < |cs| ==>
              Bracket(true, reqs)[i + 1] == Xrandr.Commit(Xrandr.SetCrtcConfig(cs[i].0, 0, 0, Xrandr.None, Xrandr.Rotate0, []))
  {
  }

  /** A request keeping only enabled outputs, when none is enabled, switches its CRTC off. */
  lemma NoneEnabledRequest(s1: State, kept: seq<nat>, q: Xrandr.CrtcRequest)
    requires forall i :: 0 <= i < |s1.outputs| ==> !s1.outputs[i].enabled
    requires kept == q.outputs
    requires forall o :: o in q.outputs ==> KeepEnabled(s1.outputs)(o)
    requires q.outputs == [] ==> q == Xrandr.SetCrtcConfig(q.crtc, 0, 0, Xrandr.None, Xrandr.Rotate0, [])
    ensures q == Xrandr.SetCrtcConfig(q.crtc, 0, 0, Xrandr.None, Xrandr.Rotate0, [])
  {
    if kept != [] {
      NoneEnabledKeepsNothing(s1.outputs, kept[0]);
      assert false;
    }
  }

  lemma NoneEnabledKeepsNothing(outs: seq<Output>, id: nat)
    requires forall i :: 0 <= i < |outs| ==> !outs[i].enabled
    ensures !KeepEnabled(outs)(id)
  {
  }

  lemma {:induction false} NoneEnabledNoRects(outs: seq<Output>, crtcs: Entries<Crtc>)
    requires forall i :: 0 <= i < |outs| ==> !outs[i].enabled
    ensures ScreenRects(outs, crtcs, true) == []
    decreases |outs|
  {
    if |outs| > 0 {
      NoneEnabledNoRects(outs[..|outs| - 1], crtcs);
    }
  }
}
