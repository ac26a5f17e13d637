/**
  XRandRScreenResources (xrrscreenresources.cpp): enabling and disabling one
  output of the X11 backend while the others stay anchored to the layout the
  CRTCs had when they were first fetched.

  The state is the output map and the CRTC cache. The X server is the
  `status` parameter: the status it answers to each RRSetCrtcConfig request.
 */
module XRandRScreenResources {
  import opened Geometry
  import opened OrdMap
  import opened QOutput
  import opened QrrCrtc
  import Xrandr

  datatype State = State(outputs: Entries<Output>, crtcs: Entries<Crtc>)

  predicate Valid(s: State) {
    Sorted(s.outputs) && Sorted(s.crtcs)
  }

  /** What enableOutput / disableOutput leave behind, answer, and send to the server. */
  datatype Outcome = Outcome(state: State, ok: bool, trace: seq<Xrandr.Event>)

  /** An X11 output whose CRTC is in the cache (and, if asked, that is enabled). */
  predicate Counted(o: Output, crtcs: Entries<Crtc>, onlyEnabled: bool) {
    o.kind.XRandR? && Contains(crtcs, o.kind.crtcId) && (!onlyEnabled || o.enabled)
  }

  function CrtcRect(o: Output, crtcs: Entries<Crtc>): Rect
    requires o.kind.XRandR? && Contains(crtcs, o.kind.crtcId)
  {
    Get(crtcs, o.kind.crtcId).value.Rect()
  }

  /** The cached CRTC rectangles of the counted outputs, in output key order. */
  function ScreenRects(outs: Entries<Output>, crtcs: Entries<Crtc>, onlyEnabled: bool): seq<Rect>
  {
    if |outs| == 0 then []
    else
      (if Counted(outs[0].1, crtcs, onlyEnabled) then [CrtcRect(outs[0].1, crtcs)] else [])
      + ScreenRects(outs[1..], crtcs, onlyEnabled)
  }

  /** computeTotalScreen: the union over every output whose CRTC is cached. */
  function TotalScreen(s: State): Rect {
    UnionAll(ScreenRects(s.outputs, s.crtcs, false))
  }

  /** computeScreen: the union over the enabled outputs whose CRTC is cached. */
  function Screen(s: State): Rect {
    UnionAll(ScreenRects(s.outputs, s.crtcs, true))
  }

  lemma {:induction false} EnabledRectsAmongAll(outs: Entries<Output>, crtcs: Entries<Crtc>)
    ensures forall r :: r in ScreenRects(outs, crtcs, true) ==> r in ScreenRects(outs, crtcs, false)
  {
    if |outs| > 0 {
      EnabledRectsAmongAll(outs[1..], crtcs);
    }
  }

  lemma {:induction false} CountedRectListed(outs: Entries<Output>, crtcs: Entries<Crtc>, onlyEnabled: bool, i: nat)
    requires i < |outs| && Counted(outs[i].1, crtcs, onlyEnabled)
    ensures CrtcRect(outs[i].1, crtcs) in ScreenRects(outs, crtcs, onlyEnabled)
  {
    if i > 0 {
      CountedRectListed(outs[1..], crtcs, onlyEnabled, i - 1);
    }
  }

  lemma {:induction false} ListedRectCounted(outs: Entries<Output>, crtcs: Entries<Crtc>, onlyEnabled: bool, r: Rect)
    requires r in ScreenRects(outs, crtcs, onlyEnabled)
    ensures exists i :: 0 <= i < |outs| && Counted(outs[i].1, crtcs, onlyEnabled) && CrtcRect(outs[i].1, crtcs) == r
  {
    if !(Counted(outs[0].1, crtcs, onlyEnabled) && CrtcRect(outs[0].1, crtcs) == r) {
      ListedRectCounted(outs[1..], crtcs, onlyEnabled, r);
      var i :| 0 <= i < |outs[1..]| && Counted(outs[1..][i].1, crtcs, onlyEnabled) && CrtcRect(outs[1..][i].1, crtcs) == r;
      assert outs[i + 1] == outs[1..][i];
    }
  }

  lemma {:induction false} AllEnabledSameRects(outs: Entries<Output>, crtcs: Entries<Crtc>)
    requires forall i :: 0 <= i < |outs| && Counted(outs[i].1, crtcs, false) ==> outs[i].1.enabled
    ensures ScreenRects(outs, crtcs, true) == ScreenRects(outs, crtcs, false)
  {
    if |outs| > 0 {
      AllEnabledSameRects(outs[1..], crtcs);
    }
  }

  /**
    The screen of the enabled outputs lies within the total screen, and the
    total screen covers the CRTC of every output whose CRTC is cached.
   */
  /** A rectangle that contains every counted CRTC rectangle contains their union. */
  lemma RectsLeast(outs: Entries<Output>, crtcs: Entries<Crtc>, onlyEnabled: bool, c: Rect)
    requires forall i :: 0 <= i < |outs| && Counted(outs[i].1, crtcs, onlyEnabled) ==> Within(CrtcRect(outs[i].1, crtcs), c)
    ensures Within(UnionAll(ScreenRects(outs, crtcs, onlyEnabled)), c)
  {
    var rs := ScreenRects(outs, crtcs, onlyEnabled);
    forall j | 0 <= j < |rs|
      ensures Within(rs[j], c)
    {
      ListedRectCounted(outs, crtcs, onlyEnabled, rs[j]);
    }
    UnionAllLeast(rs, c);
  }

  /** computeTotalScreen and computeScreen are the least rectangles covering the CRTC rectangles they count. */
  lemma ScreensLeast(s: State, c: Rect)
    ensures (forall i :: 0 <= i < |s.outputs| && Counted(s.outputs[i].1, s.crtcs, false) ==>
               Within(CrtcRect(s.outputs[i].1, s.crtcs), c)) ==> Within(TotalScreen(s), c)
    ensures (forall i :: 0 <= i < |s.outputs| && Counted(s.outputs[i].1, s.crtcs, true) ==>
               Within(CrtcRect(s.outputs[i].1, s.crtcs), c)) ==> Within(Screen(s), c)
  {
    if forall i :: 0 <= i < |s.outputs| && Counted(s.outputs[i].1, s.crtcs, false) ==> Within(CrtcRect(s.outputs[i].1, s.crtcs), c) {
      RectsLeast(s.outputs, s.crtcs, false, c);
    }
    if forall i :: 0 <= i < |s.outputs| && Counted(s.outputs[i].1, s.crtcs, true) ==> Within(CrtcRect(s.outputs[i].1, s.crtcs), c) {
      RectsLeast(s.outputs, s.crtcs, true, c);
    }
  }

  lemma ScreenWithinTotal(s: State)
    ensures Within(Screen(s), TotalScreen(s))
    ensures forall i :: 0 <= i < |s.outputs| && Counted(s.outputs[i].1, s.crtcs, false) ==>
              Within(CrtcRect(s.outputs[i].1, s.crtcs), TotalScreen(s))
  {
    EnabledRectsAmongAll(s.outputs, s.crtcs);
    UnionAllMonotone(ScreenRects(s.outputs, s.crtcs, true), ScreenRects(s.outputs, s.crtcs, false));
    forall i | 0 <= i < |s.outputs| && Counted(s.outputs[i].1, s.crtcs, false)
      ensures Within(CrtcRect(s.outputs[i].1, s.crtcs), TotalScreen(s))
    {
      CountedRectListed(s.outputs, s.crtcs, false, i);
      UnionAllMonotone([CrtcRect(s.outputs[i].1, s.crtcs)], ScreenRects(s.outputs, s.crtcs, false));
    }
  }

  /** computeScreen is null exactly when every enabled output with a cached CRTC has a null CRTC rectangle. */
  lemma ScreenNullIff(s: State)
    ensures Screen(s).IsNull() <==>
              forall i :: 0 <= i < |s.outputs| && Counted(s.outputs[i].1, s.crtcs, true) ==>
                CrtcRect(s.outputs[i].1, s.crtcs).IsNull()
  {
    var rs := ScreenRects(s.outputs, s.crtcs, true);
    UnionAllNull(rs);
    if !Screen(s).IsNull() {
      var j :| 0 <= j < |rs| && !rs[j].IsNull();
      ListedRectCounted(s.outputs, s.crtcs, true, rs[j]);
    } else {
      forall i | 0 <= i < |s.outputs| && Counted(s.outputs[i].1, s.crtcs, true)
        ensures CrtcRect(s.outputs[i].1, s.crtcs).IsNull()
      {
        CountedRectListed(s.outputs, s.crtcs, true, i);
      }
    }
  }

  /** updateCrtcOrigin keeps the attached outputs that resolve to an enabled X11 output. */
  function KeepEnabled(outs: Entries<Output>): nat -> bool {
    (id: nat) => var o := Get(outs, id); o.Some? && o.value.kind.XRandR? && o.value.enabled
  }

  /** updateCrtcOrigin(crtcId, newOrigin) as the request it sends. */
  function UpdateCrtcOrigin(s: State, id: nat, c: Crtc, origin: Point): (q: Xrandr.CrtcRequest)
    ensures q.crtc == id
    ensures forall o :: o in q.outputs <==>
              o in c.outputs && Get(s.outputs, o).Some? && Get(s.outputs, o).value.kind.XRandR?
              && Get(s.outputs, o).value.enabled
    ensures Subsequence(q.outputs, c.outputs)
    ensures q.outputs == [] ==> q == Xrandr.SetCrtcConfig(id, 0, 0, Xrandr.None, Xrandr.Rotate0, [])
    ensures q.outputs != [] ==> q.x == origin.x && q.y == origin.y && q.mode == c.mode && q.rotation == c.rotation
  {
    OriginRequest(id, c, origin, KeepEnabled(s.outputs))
  }

  /** The requests of the commit loop over `cs`, in CRTC key order. */
  function Commits(s: State, cs: Entries<Crtc>, total: Rect, screen: Rect): (reqs: seq<Xrandr.CrtcRequest>)
    ensures |reqs| == |cs|
    ensures forall i :: 0 <= i < |cs| ==>
              reqs[i] == UpdateCrtcOrigin(s, cs[i].0, cs[i].1, NewOrigin(cs[i].1, total, screen))
  {
    Requests(cs, KeepEnabled(s.outputs), total, screen)
  }

  /** The state with the flag of the output under `key` set. */
  function SetFlag(s: State, key: nat, o: Output, flag: bool): (r: State)
    requires Valid(s)
    ensures Valid(r) && r.crtcs == s.crtcs
    ensures Get(r.outputs, key) == Some(o.(enabled := flag))
    ensures forall k :: k != key ==> Get(r.outputs, k) == Get(s.outputs, k)
  {
    s.(outputs := Put(s.outputs, key, o.(enabled := flag)))
  }

  /** Recomputes both screens on `s1` and commits every cached CRTC. */
  function CommitAll(s1: State, grab: bool, status: Xrandr.CrtcRequest -> nat): (r: (bool, seq<Xrandr.Event>))
    ensures var reqs := Commits(s1, s1.crtcs, TotalScreen(s1), Screen(s1));
            (r.0 <==> forall i :: 0 <= i < |reqs| ==> status(reqs[i]) == Xrandr.SetConfigSuccess)
            && |r.1| == |s1.crtcs| + (if grab then 2 else 0)
            && (grab ==> r.1[0] == Xrandr.GrabServer && r.1[|r.1| - 1] == Xrandr.UngrabServer)
            && forall i :: 0 <= i < |s1.crtcs| ==>
                 r.1[i + (if grab then 1 else 0)]
                   == Xrandr.Commit(UpdateCrtcOrigin(s1, s1.crtcs[i].0, s1.crtcs[i].1,
                                                     NewOrigin(s1.crtcs[i].1, TotalScreen(s1), Screen(s1))))
  {
    var reqs := Commits(s1, s1.crtcs, TotalScreen(s1), Screen(s1));
    CommitTrace(s1, grab);
    (AllSucceed(reqs, status), Bracket(grab, reqs))
  }

  /** The grabbed or bare commit pass on `s1`, request by request. */
  lemma CommitTrace(s1: State, grab: bool)
    ensures var reqs := Commits(s1, s1.crtcs, TotalScreen(s1), Screen(s1));
            var t := Bracket(grab, reqs);
            forall i :: 0 <= i < |s1.crtcs| ==>
              t[i + (if grab then 1 else 0)]
                == Xrandr.Commit(UpdateCrtcOrigin(s1, s1.crtcs[i].0, s1.crtcs[i].1,
                                                  NewOrigin(s1.crtcs[i].1, TotalScreen(s1), Screen(s1))))
  {
  }

  /**
    XRandRScreenResources::enableOutput(output, grab) for the output stored
    under `key`.
   */
  function EnableOutput(s: State, key: nat, grab: bool, status: Xrandr.CrtcRequest -> nat): (r: Outcome)
    requires Valid(s) && Contains(s.outputs, key)
    ensures Valid(r.state)
    ensures var o := Get(s.outputs, key).value;
            (!o.kind.XRandR? ==> r == Outcome(s, false, [])) &&
            (o.kind.XRandR? && o.enabled ==> r == Outcome(s, true, [])) &&
            (o.kind.XRandR? && !o.enabled && !Contains(s.crtcs, o.kind.crtcId) ==> r == Outcome(s, false, []))
    ensures var o := Get(s.outputs, key).value;
            o.kind.XRandR? && !o.enabled && Contains(s.crtcs, o.kind.crtcId) ==>
              var s1 := SetFlag(s, key, o, true);
              var reqs := Commits(s1, s1.crtcs, TotalScreen(s1), Screen(s1));
              r.trace == Bracket(grab, reqs) && (r.ok <==> AllSucceed(reqs, status))
    ensures !r.ok ==> r.state == s
    ensures r.ok ==> Get(r.state.outputs, key) == Some(Get(s.outputs, key).value.(enabled := true))
    ensures r.ok ==> forall k :: k != key ==> Get(r.state.outputs, k) == Get(s.outputs, k)
  {
    var o := Get(s.outputs, key).value;
    if !o.kind.XRandR? then Outcome(s, false, [])
    else if o.enabled then Outcome(s, true, [])
    else if !Contains(s.crtcs, o.kind.crtcId) then Outcome(s, false, [])
    else
      var s1 := SetFlag(s, key, o, true);
      var (ans, trace) := CommitAll(s1, grab, status);
      if ans then Outcome(s1, true, trace)
      else
        PutSame(s.outputs, key, o);
        PutPut(s.outputs, key, o.(enabled := true), o);
        Outcome(SetFlag(s1, key, o, false), false, trace)
  }

  /**
    XRandRScreenResources::disableOutput(output, grab) for the output stored
    under `key`. It refuses to switch off the last visible output.
   */
  function DisableOutput(s: State, key: nat, grab: bool, status: Xrandr.CrtcRequest -> nat): (r: Outcome)
    requires Valid(s) && Contains(s.outputs, key)
    ensures Valid(r.state)
    ensures var o := Get(s.outputs, key).value;
            (!o.kind.XRandR? ==> r == Outcome(s, false, [])) &&
            (o.kind.XRandR? && !o.enabled ==> r == Outcome(s, true, [])) &&
            (o.kind.XRandR? && o.enabled && !Contains(s.crtcs, o.kind.crtcId) ==> r == Outcome(s, false, [])) &&
            ((o.kind.XRandR? && o.enabled && Contains(s.crtcs, o.kind.crtcId)
              && Screen(SetFlag(s, key, o, false)).IsNull()) ==> r == Outcome(s, false, []))
    ensures var o := Get(s.outputs, key).value;
            var s1 := SetFlag(s, key, o, false);
            o.kind.XRandR? && o.enabled && Contains(s.crtcs, o.kind.crtcId) && !Screen(s1).IsNull() ==>
              var reqs := Commits(s1, s1.crtcs, TotalScreen(s1), Screen(s1));
              r.trace == Bracket(grab, reqs) && (r.ok <==> AllSucceed(reqs, status))
    ensures !r.ok ==> r.state == s
    ensures r.ok ==> Get(r.state.outputs, key) == Some(Get(s.outputs, key).value.(enabled := false))
    ensures r.ok ==> forall k :: k != key ==> Get(r.state.outputs, k) == Get(s.outputs, k)
  {
    var o := Get(s.outputs, key).value;
    if !o.kind.XRandR? then Outcome(s, false, [])
    else if !o.enabled then Outcome(s, true, [])
    else if !Contains(s.crtcs, o.kind.crtcId) then Outcome(s, false, [])
    else
      var s1 := SetFlag(s, key, o, false);
      PutSame(s.outputs, key, o);
      PutPut(s.outputs, key, o.(enabled := false), o);
      if Screen(s1).IsNull() then Outcome(SetFlag(s1, key, o, true), false, [])
      else
        var (ans, trace) := CommitAll(s1, grab, status);
        if ans then Outcome(s1, true, trace)
        else Outcome(SetFlag(s1, key, o, true), false, trace)
  }

  /**
    The enabled CRTCs, each moved to its new origin, together start exactly
    at the top-left corner of the total screen: the layout stays anchored
    where the original layout began.
   */
  lemma AnchoredToTotalScreen(s: State)
    requires !Screen(s).IsNull()
    ensures var total, screen := TotalScreen(s), Screen(s);
            var d := Sub(total.TopLeft(), screen.TopLeft());
            UnionAll(TranslateAll(ScreenRects(s.outputs, s.crtcs, true), d)).TopLeft() == total.TopLeft()
    ensures forall c: Crtc :: Translate(c.Rect(), Sub(TotalScreen(s).TopLeft(), Screen(s).TopLeft())).TopLeft()
                        == NewOrigin(c, TotalScreen(s), Screen(s))
  {
    var rs := ScreenRects(s.outputs, s.crtcs, true);
    UnionAllNull(rs);
    UnionAllTranslate(rs, Sub(TotalScreen(s).TopLeft(), Screen(s).TopLeft()));
  }

  /** The outputs other than `key` that have a cached CRTC are all enabled. */
  predicate OthersEnabled(s: State, key: nat) {
    forall i :: 0 <= i < |s.outputs| && s.outputs[i].0 != key && Counted(s.outputs[i].1, s.crtcs, false) ==>
      s.outputs[i].1.enabled
  }

  /** Enabling the one output that was off leaves every counted output enabled. */
  lemma EnableLastCoversAll(s: State, key: nat)
    requires Valid(s) && Contains(s.outputs, key) && Get(s.outputs, key).value.kind.XRandR?
    requires OthersEnabled(s, key)
    ensures var s1 := SetFlag(s, key, Get(s.outputs, key).value, true);
            Screen(s1) == TotalScreen(s1) && s1.crtcs == s.crtcs
  {
    var o := Get(s.outputs, key).value;
    var s1 := SetFlag(s, key, o, true);
    var j :| 0 <= j < |s.outputs| && Keys(s.outputs)[j] == key;
    GetAt(s.outputs, j);
    PutReplaces(s.outputs, j, o.(enabled := true));
    assert s1.outputs == s.outputs[j := (key, o.(enabled := true))];
    OthersEnabledAfterSet(s, key, j, o.(enabled := true));
    AllEnabledSameRects(s1.outputs, s1.crtcs);
  }

  /** Setting the entry of `key` to an enabled output leaves every counted output enabled. */
  lemma OthersEnabledAfterSet(s: State, key: nat, j: nat, o: Output)
    requires Valid(s) && j < |s.outputs| && Keys(s.outputs)[j] == key && o.enabled
    requires OthersEnabled(s, key)
    ensures var outs := s.outputs[j := (key, o)];
            forall i :: 0 <= i < |outs| && Counted(outs[i].1, s.crtcs, false) ==> outs[i].1.enabled
  {
    var outs := s.outputs[j := (key, o)];
    forall i | 0 <= i < |outs| && Counted(outs[i].1, s.crtcs, false)
      ensures outs[i].1.enabled
    {
      if i != j {
        assert outs[i] == s.outputs[i];
        assert s.outputs[i].0 != s.outputs[j].0 == key;
      }
    }
  }

  /**
    Enabling the one output that was off commits every CRTC that stays on at
    the origin it was first fetched with: the original layout comes back.
   */
  lemma EnableLastRestoresLayout(s: State, key: nat)
    requires Valid(s) && Contains(s.outputs, key) && Get(s.outputs, key).value.kind.XRandR?
    requires OthersEnabled(s, key)
    ensures var s1 := SetFlag(s, key, Get(s.outputs, key).value, true);
            var reqs := Commits(s1, s1.crtcs, TotalScreen(s1), Screen(s1));
            forall i :: 0 <= i < |s.crtcs| && reqs[i].outputs != [] ==>
              reqs[i].x == s.crtcs[i].1.x && reqs[i].y == s.crtcs[i].1.y
  {
    var s1 := SetFlag(s, key, Get(s.outputs, key).value, true);
    EnableLastCoversAll(s, key);
    var reqs := Commits(s1, s1.crtcs, TotalScreen(s1), Screen(s1));
    forall i | 0 <= i < |s.crtcs| && reqs[i].outputs != []
      ensures reqs[i].x == s.crtcs[i].1.x && reqs[i].y == s.crtcs[i].1.y
    {
      var p := NewOrigin(s.crtcs[i].1, TotalScreen(s1), Screen(s1));
      assert p == s.crtcs[i].1.Rect().TopLeft();
    }
  }

  /**
    Disabling an output and enabling it again, both accepted by the server,
    gives back the state the engine started from.
   */
  lemma DisableThenEnableRestoresState(s: State, key: nat, grab: bool,
                                       status1: Xrandr.CrtcRequest -> nat, status2: Xrandr.CrtcRequest -> nat)
    requires Valid(s) && Contains(s.outputs, key)
    requires Get(s.outputs, key).value.enabled
    requires DisableOutput(s, key, grab, status1).ok
    ensures var s' := DisableOutput(s, key, grab, status1).state;
            Contains(s'.outputs, key) &&
            (EnableOutput(s', key, grab, status2).ok ==> EnableOutput(s', key, grab, status2).state == s)
  {
    var o := Get(s.outputs, key).value;
    var s' := DisableOutput(s, key, grab, status1).state;
    PutPut(s.outputs, key, o.(enabled := false), o);
    PutSame(s.outputs, key, o);
    var r := EnableOutput(s', key, grab, status2);
    if r.ok {
      assert Get(s'.outputs, key) == Some(o.(enabled := false));
      PutPut(s.outputs, key, o.(enabled := false), o.(enabled := true));
      assert o.(enabled := true) == o;
    }
  }

  /**
    Two monitors side by side: output 1 ("A") on CRTC 10, 800 x 600 at
    x = 0, and output 2 ("B") on CRTC 20, 600 x 600 at x = 800, both on.
   */
  function SideBySide(enabledA: bool): State {
    State([(1, Output(Str("A"), 0, 0, Connected, enabledA, XRandR(10))),
           (2, Output(Str("B"), 0, 0, Connected, true, XRandR(20)))],
          [(10, Crtc(0, 0, 800, 600, 7, Xrandr.Rotate0, [1])),
           (20, Crtc(800, 0, 600, 600, 7, Xrandr.Rotate0, [2]))])
  }

  /** The requests a commit pass sends for the two-monitor layout, with A on or off. */
  function SideBySideRequests(enabledA: bool): seq<Xrandr.CrtcRequest> {
    if enabledA then [Xrandr.SetCrtcConfig(10, 0, 0, 7, Xrandr.Rotate0, [1]),
                      Xrandr.SetCrtcConfig(20, 800, 0, 7, Xrandr.Rotate0, [2])]
    else [Xrandr.SetCrtcConfig(10, 0, 0, Xrandr.None, Xrandr.Rotate0, []),
          Xrandr.SetCrtcConfig(20, 0, 0, 7, Xrandr.Rotate0, [2])]
  }

  /**
    A grabbed disable that gets past its guards and commits two requests:
    the trace, the answer, and the state kept on either answer.
   */
  lemma DisableSendsPair(s: State, key: nat, status: Xrandr.CrtcRequest -> nat, s1: State,
                         a: Xrandr.CrtcRequest, b: Xrandr.CrtcRequest)
    requires Valid(s) && Contains(s.outputs, key)
    requires var o := Get(s.outputs, key).value;
             o.kind.XRandR? && o.enabled && Contains(s.crtcs, o.kind.crtcId) && s1 == SetFlag(s, key, o, false)
    requires !Screen(s1).IsNull() && Commits(s1, s1.crtcs, TotalScreen(s1), Screen(s1)) == [a, b]
    ensures var ok := status(a) == Xrandr.SetConfigSuccess && status(b) == Xrandr.SetConfigSuccess;
            DisableOutput(s, key, true, status)
              == Outcome(if ok then s1 else s, ok, [Xrandr.GrabServer, Xrandr.Commit(a), Xrandr.Commit(b), Xrandr.UngrabServer])
  {
    BracketPair(a, b, status);
  }

  /**
    A grabbed enable that gets past its guards and commits two requests:
    the trace, the answer, and the state kept on either answer.
   */
  lemma EnableSendsPair(s: State, key: nat, status: Xrandr.CrtcRequest -> nat, s1: State,
                        a: Xrandr.CrtcRequest, b: Xrandr.CrtcRequest)
    requires Valid(s) && Contains(s.outputs, key)
    requires var o := Get(s.outputs, key).value;
             o.kind.XRandR? && !o.enabled && Contains(s.crtcs, o.kind.crtcId) && s1 == SetFlag(s, key, o, true)
    requires Commits(s1, s1.crtcs, TotalScreen(s1), Screen(s1)) == [a, b]
    ensures var ok := status(a) == Xrandr.SetConfigSuccess && status(b) == Xrandr.SetConfigSuccess;
            EnableOutput(s, key, true, status)
              == Outcome(if ok then s1 else s, ok, [Xrandr.GrabServer, Xrandr.Commit(a), Xrandr.Commit(b), Xrandr.UngrabServer])
  {
    BracketPair(a, b, status);
  }

  /**
    Disabling A passes every guard of disableOutput, the remaining screen
    is not empty, and the commit pass on the layout with A off switches
    CRTC 10 off and moves CRTC 20 to x = 0, where the remaining screen now
    begins. With DisableSendsPair this is the grabbed trace, the answer,
    and the state kept on either answer.
   */
  lemma SideBySideDisable()
    ensures var s, s1 := SideBySide(true), SideBySide(false);
            Valid(s) && Contains(s.outputs, 1)
            && (var o := Get(s.outputs, 1).value;
                o.kind.XRandR? && o.enabled && Contains(s.crtcs, o.kind.crtcId) && s1 == SetFlag(s, 1, o, false))
            && !Screen(s1).IsNull()
            && Commits(s1, s1.crtcs, TotalScreen(s1), Screen(s1))
                 == [Xrandr.SetCrtcConfig(10, 0, 0, Xrandr.None, Xrandr.Rotate0, []),
                     Xrandr.SetCrtcConfig(20, 0, 0, 7, Xrandr.Rotate0, [2])]
  {
    SideBySideFlag(true, false);
    SideBySideOffNotNull();
    SideBySideCommitsOff(SideBySide(false));
  }

  /**
    Enabling A again passes every guard of enableOutput, and the commit
    pass on the layout with both on puts CRTC 10 back at x = 0 and CRTC 20
    back at x = 800: the original layout returns. With EnableSendsPair
    this is the grabbed trace, the answer, and the state kept on either
    answer.
   */
  lemma SideBySideEnable()
    ensures var s, s1 := SideBySide(false), SideBySide(true);
            Valid(s) && Contains(s.outputs, 1)
            && (var o := Get(s.outputs, 1).value;
                o.kind.XRandR? && !o.enabled && Contains(s.crtcs, o.kind.crtcId) && s1 == SetFlag(s, 1, o, true))
            && Commits(s1, s1.crtcs, TotalScreen(s1), Screen(s1))
                 == [Xrandr.SetCrtcConfig(10, 0, 0, 7, Xrandr.Rotate0, [1]),
                     Xrandr.SetCrtcConfig(20, 800, 0, 7, Xrandr.Rotate0, [2])]
  {
    SideBySideFlag(false, true);
    SideBySideCommitsOn();
  }

  /** With A off, B alone still makes up a screen. */
  lemma SideBySideOffNotNull()
    ensures !Screen(SideBySide(false)).IsNull()
  {
    SideBySideScreens(false);
  }

  /** Output A of the layout, and the layout with A's flag set. */
  lemma SideBySideFlag(enabledA: bool, flag: bool)
    ensures var s := SideBySide(enabledA);
            Valid(s) && Contains(s.outputs, 1) && Contains(s.crtcs, 10)
            && Get(s.outputs, 1) == Some(Output(Str("A"), 0, 0, Connected, enabledA, XRandR(10)))
            && SetFlag(s, 1, Get(s.outputs, 1).value, flag) == SideBySide(flag)
  {
  }

  /** A grabbed commit pass of two requests, and its answer. */
  lemma BracketPair(a: Xrandr.CrtcRequest, b: Xrandr.CrtcRequest, status: Xrandr.CrtcRequest -> nat)
    ensures Bracket(true, [a, b]) == [Xrandr.GrabServer, Xrandr.Commit(a), Xrandr.Commit(b), Xrandr.UngrabServer]
    ensures AllSucceed([a, b], status) <==> status(a) == Xrandr.SetConfigSuccess && status(b) == Xrandr.SetConfigSuccess
  {
    var t := Bracket(true, [a, b]);
    assert t[1] == Xrandr.Commit(a) && t[2] == Xrandr.Commit(b);
  }

  /** With both monitors on, the commit pass sends SideBySideRequests(true). */
  lemma SideBySideCommitsOn()
    ensures var s := SideBySide(true);
            Commits(s, s.crtcs, TotalScreen(s), Screen(s)) == SideBySideRequests(true)
  {
    var s := SideBySide(true);
    SideBySideScreens(true);
    SideBySideKeep(true);
    SideBySideCommitsOnAt(s.crtcs, KeepEnabled(s.outputs), TotalScreen(s), Screen(s));
  }

  /** The commit pass over the two CRTCs with both kept and the screen equal to the total screen. */
  lemma SideBySideCommitsOnAt(cs: Entries<Crtc>, keep: nat -> bool, total: Rect, screen: Rect)
    requires |cs| == 2 && cs[0] == (10, Crtc(0, 0, 800, 600, 7, Xrandr.Rotate0, [1]))
    requires cs[1] == (20, Crtc(800, 0, 600, 600, 7, Xrandr.Rotate0, [2]))
    requires KeepOutputs([1], keep) == [1] && KeepOutputs([2], keep) == [2]
    requires screen == total
    ensures Requests(cs, keep, total, screen) == SideBySideRequests(true)
  {
    SideBySideKeptA(cs, keep, total, screen);
    SideBySideKeptB(cs, keep, total, screen);
    PairOf(Requests(cs, keep, total, screen), Xrandr.SetCrtcConfig(10, 0, 0, 7, Xrandr.Rotate0, [1]),
           Xrandr.SetCrtcConfig(20, 800, 0, 7, Xrandr.Rotate0, [2]));
  }

  /** A, kept on the full screen, stays at the origin. */
  lemma SideBySideKeptA(cs: Entries<Crtc>, keep: nat -> bool, total: Rect, screen: Rect)
    requires |cs| == 2 && cs[0] == (10, Crtc(0, 0, 800, 600, 7, Xrandr.Rotate0, [1]))
    requires KeepOutputs([1], keep) == [1] && screen == total
    ensures Requests(cs, keep, total, screen)[0] == Xrandr.SetCrtcConfig(10, 0, 0, 7, Xrandr.Rotate0, [1])
  {
    SideBySideStays(cs, keep, total, screen, 0);
  }

  /** B, kept on the full screen, stays 800 to the right. */
  lemma SideBySideKeptB(cs: Entries<Crtc>, keep: nat -> bool, total: Rect, screen: Rect)
    requires |cs| == 2 && cs[1] == (20, Crtc(800, 0, 600, 600, 7, Xrandr.Rotate0, [2]))
    requires KeepOutputs([2], keep) == [2] && screen == total
    ensures Requests(cs, keep, total, screen)[1] == Xrandr.SetCrtcConfig(20, 800, 0, 7, Xrandr.Rotate0, [2])
  {
    SideBySideStays(cs, keep, total, screen, 1);
  }

  /** A kept CRTC on a screen that did not shrink is committed where it already is. */
  lemma SideBySideStays(cs: Entries<Crtc>, keep: nat -> bool, total: Rect, screen: Rect, i: nat)
    requires i < |cs| && KeepOutputs(cs[i].1.outputs, keep) == cs[i].1.outputs != []
    requires screen == total
    ensures var c := cs[i].1;
            Requests(cs, keep, total, screen)[i] == Xrandr.SetCrtcConfig(cs[i].0, c.x, c.y, c.mode, c.rotation, c.outputs)
  {
    var q := Requests(cs, keep, total, screen)[i];
    assert Add(Point(q.x, q.y), Point(0, 0)) == cs[i].1.Rect().TopLeft();
  }

  /** With A off, the remaining screen begins where B does, 800 to the right of the total screen. */
  lemma SideBySideCorners()
    ensures TotalScreen(SideBySide(false)).TopLeft() == Point(0, 0)
    ensures Screen(SideBySide(false)).TopLeft() == Point(800, 0)
  {
    SideBySideScreens(false);
  }

  /** With A off, the commit pass sends SideBySideRequests(false). */
  lemma SideBySideCommitsOff(s: State)
    requires s == SideBySide(false)
    ensures Commits(s, s.crtcs, TotalScreen(s), Screen(s)) == SideBySideRequests(false)
  {
    SideBySideCorners();
    SideBySideKeep(false);
    SideBySideCommitsOffAt(s.crtcs, KeepEnabled(s.outputs), TotalScreen(s), Screen(s));
  }

  /** The commit pass over the two CRTCs once A is dropped and the screen begins at B. */
  lemma SideBySideCommitsOffAt(cs: Entries<Crtc>, keep: nat -> bool, total: Rect, screen: Rect)
    requires |cs| == 2 && cs[0] == (10, Crtc(0, 0, 800, 600, 7, Xrandr.Rotate0, [1]))
    requires cs[1] == (20, Crtc(800, 0, 600, 600, 7, Xrandr.Rotate0, [2]))
    requires KeepOutputs([1], keep) == [] && KeepOutputs([2], keep) == [2]
    requires total.TopLeft() == Point(0, 0) && screen.TopLeft() == Point(800, 0)
    ensures Requests(cs, keep, total, screen) == SideBySideRequests(false)
  {
    SideBySideOffA(cs, keep, total, screen);
    SideBySideMovedB(cs, keep, total, screen);
    PairOf(Requests(cs, keep, total, screen), Xrandr.SetCrtcConfig(10, 0, 0, Xrandr.None, Xrandr.Rotate0, []),
           Xrandr.SetCrtcConfig(20, 0, 0, 7, Xrandr.Rotate0, [2]));
  }

  /** A, no longer kept, has its CRTC switched off. */
  lemma SideBySideOffA(cs: Entries<Crtc>, keep: nat -> bool, total: Rect, screen: Rect)
    requires |cs| == 2 && cs[0] == (10, Crtc(0, 0, 800, 600, 7, Xrandr.Rotate0, [1]))
    requires KeepOutputs([1], keep) == []
    ensures Requests(cs, keep, total, screen)[0] == Xrandr.SetCrtcConfig(10, 0, 0, Xrandr.None, Xrandr.Rotate0, [])
  {
  }

  /** B, alone on the screen, is committed at the origin. */
  lemma SideBySideMovedB(cs: Entries<Crtc>, keep: nat -> bool, total: Rect, screen: Rect)
    requires |cs| == 2 && cs[1] == (20, Crtc(800, 0, 600, 600, 7, Xrandr.Rotate0, [2]))
    requires KeepOutputs([2], keep) == [2]
    requires total.TopLeft() == Point(0, 0) && screen.TopLeft() == Point(800, 0)
    ensures Requests(cs, keep, total, screen)[1] == Xrandr.SetCrtcConfig(20, 0, 0, 7, Xrandr.Rotate0, [2])
  {
    RequestAt(cs, keep, total, screen, 1);
    OriginAtCorner(cs[1].1, total, screen);
  }

  /** Request i of a commit pass moves CRTC i to its new origin. */
  lemma RequestAt(cs: Entries<Crtc>, keep: nat -> bool, total: Rect, screen: Rect, i: nat)
    requires i < |cs|
    ensures Requests(cs, keep, total, screen)[i] == OriginRequest(cs[i].0, cs[i].1, NewOrigin(cs[i].1, total, screen), keep)
  {
  }

  /** A CRTC at the corner of the screen moves to the corner of the total screen, here the origin. */
  lemma OriginAtCorner(c: Crtc, total: Rect, screen: Rect)
    requires c.Rect().TopLeft() == screen.TopLeft() && total.TopLeft() == Point(0, 0)
    ensures NewOrigin(c, total, screen) == Point(0, 0)
  {
  }

  lemma PairOf<T>(xs: seq<T>, a: T, b: T)
    requires |xs| == 2 && xs[0] == a && xs[1] == b
    ensures xs == [a, b]
  {
  }

  /** Which attached outputs a commit pass on the layout keeps. */
  lemma SideBySideKeep(enabledA: bool)
    ensures var keep := KeepEnabled(SideBySide(enabledA).outputs);
            KeepOutputs([1], keep) == (if enabledA then [1] else []) && KeepOutputs([2], keep) == [2]
  {
    var outs := SideBySide(enabledA).outputs;
    assert Get(outs, 2) == Some(outs[1].1) by {
      var rest: Entries<Output> := outs[1..];
      assert rest == [outs[1]];
    }
  }

  /** The CRTC cache of the two-monitor layout. */
  lemma SideBySideCrtcs(enabledA: bool)
    ensures var c := SideBySide(enabledA).crtcs;
            Get(c, 10) == Some(Crtc(0, 0, 800, 600, 7, Xrandr.Rotate0, [1]))
            && Get(c, 20) == Some(Crtc(800, 0, 600, 600, 7, Xrandr.Rotate0, [2]))
  {
    var c := SideBySide(enabledA).crtcs;
    assert c[1..] == [c[1]];
  }

  /** The rectangles the screens of the two-monitor layout are the unions of. */
  lemma SideBySideRects(enabledA: bool, onlyEnabled: bool)
    ensures ScreenRects(SideBySide(enabledA).outputs, SideBySide(enabledA).crtcs, onlyEnabled)
              == if onlyEnabled && !enabledA then [Rect(800, 0, 600, 600)]
                 else [Rect(0, 0, 800, 600), Rect(800, 0, 600, 600)]
  {
    var s := SideBySide(enabledA);
    var outs := s.outputs;
    SideBySideCrtcs(enabledA);
    var rest: Entries<Output> := outs[1..];
    assert rest == [outs[1]] && rest[1..] == [];
    assert Counted(outs[1].1, s.crtcs, onlyEnabled);
    assert ScreenRects(rest, s.crtcs, onlyEnabled) == [Rect(800, 0, 600, 600)];
    assert Counted(outs[0].1, s.crtcs, onlyEnabled) <==> !(onlyEnabled && !enabledA);
  }

  /** The screens of the two-monitor layout: 1400 x 600 in total, B alone when A is off. */
  lemma SideBySideScreens(enabledA: bool)
    ensures TotalScreen(SideBySide(enabledA)) == Rect(0, 0, 1400, 600)
    ensures Screen(SideBySide(enabledA)) == if enabledA then Rect(0, 0, 1400, 600) else Rect(800, 0, 600, 600)
  {
    var s := SideBySide(enabledA);
    var a, b := Rect(0, 0, 800, 600), Rect(800, 0, 600, 600);
    var all := ScreenRects(s.outputs, s.crtcs, false);
    var on := ScreenRects(s.outputs, s.crtcs, true);
    SideBySideRects(enabledA, false);
    SideBySideRects(enabledA, true);
    assert all == [a, b];
    SideBySideUnion();
    if !enabledA {
      assert on == [b];
    }
  }
}
