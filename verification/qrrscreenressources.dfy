/**
  QRRScreenRessources (qrrscreenressources.cpp): the oldest X11 variant.
  Its output list, output(id), outputs(refresh) and crtc(id) are those of
  QRRScreenResources. enableOutput and disableOutput compute the total
  screen and the new screen in one pass over the outputs, before the flag
  is changed, counting the target as it will be after the toggle.
 */
module QrrScreenRessources {
  import opened Geometry
  import opened OrdMap
  import opened QrrCrtc
  import opened QrrOutput
  import opened QrrScreenResources
  import Xrandr

  /**
    Whether the single pass counts the output at position `i` in the new
    screen: `o == out || o->mEnabled` when enabling `t`,
    `o != out && o->mEnabled` when disabling it.
   */
  predicate InNewScreen(outs: seq<Output>, t: nat, enabling: bool, i: nat)
    requires i < |outs|
  {
    if enabling then i == t || outs[i].enabled else i != t && outs[i].enabled
  }

  /** The single loop over the first `n` outputs: (totalScreen, newScreen). */
  function Pass(outs: seq<Output>, crtcs: Entries<Crtc>, t: nat, enabling: bool, n: nat): (Rect, Rect)
    requires n <= |outs|
    decreases n
  {
    if n == 0 then (NullRect, NullRect)
    else
      var prev := Pass(outs, crtcs, t, enabling, n - 1);
      var o := outs[n - 1];
      if !Contains(crtcs, o.crtcId) then prev
      else
        var rect := Get(crtcs, o.crtcId).value.Rect();
        (Union(prev.0, rect), if InNewScreen(outs, t, enabling, n - 1) then Union(prev.1, rect) else prev.1)
  }

  /**
    After `n` outputs the pass holds the union over every output whose CRTC
    is cached, and the union over those enabled once the target's flag is
    set to `enabling`.
   */
  lemma {:induction false} PassUnions(outs: seq<Output>, crtcs: Entries<Crtc>, t: nat, enabling: bool, n: nat)
    requires t < |outs| && n <= |outs|
    ensures Pass(outs, crtcs, t, enabling, n).0 == UnionAll(ScreenRects(outs[..n], crtcs, false))
    ensures Pass(outs, crtcs, t, enabling, n).1
              == UnionAll(ScreenRects(outs[t := outs[t].(enabled := enabling)][..n], crtcs, true))
    decreases n
  {
    if n > 0 {
      PassUnions(outs, crtcs, t, enabling, n - 1);
      PassStep(outs, crtcs, t, enabling, n);
    }
  }

  /** Appending one rectangle to a list adds it to the union. */
  lemma UnionAllAppend(rs: seq<Rect>, extra: seq<Rect>)
    requires |extra| <= 1
    ensures UnionAll(rs + extra) == if |extra| == 0 then UnionAll(rs) else Union(UnionAll(rs), extra[0])
  {
    if |extra| == 0 {
      assert rs + extra == rs;
    } else {
      assert (rs + extra)[..|rs|] == rs;
    }
  }

  /** The union over the first `n` outputs grows by the n-th output's rectangle when it is counted. */
  lemma UnionStep(outs: seq<Output>, crtcs: Entries<Crtc>, onlyEnabled: bool, n: nat)
    requires 0 < n <= |outs|
    ensures UnionAll(ScreenRects(outs[..n], crtcs, onlyEnabled))
              == if Counted(outs[n - 1], crtcs, onlyEnabled)
                 then Union(UnionAll(ScreenRects(outs[..n - 1], crtcs, onlyEnabled)), CrtcRect(outs[n - 1], crtcs))
                 else UnionAll(ScreenRects(outs[..n - 1], crtcs, onlyEnabled))
  {
    var m := n - 1;
    assert outs[..n][..m] == outs[..m];
    assert outs[..n][m] == outs[m];
    var extra := if Counted(outs[m], crtcs, onlyEnabled) then [CrtcRect(outs[m], crtcs)] else [];
    UnionAllAppend(ScreenRects(outs[..m], crtcs, onlyEnabled), extra);
  }

  /** One more output in the pass: how each of the two rectangle lists grows. */
  lemma PassStep(outs: seq<Output>, crtcs: Entries<Crtc>, t: nat, enabling: bool, n: nat)
    requires t < |outs| && 0 < n <= |outs|
    ensures var m := n - 1;
            var o := outs[m];
            var flipped := outs[t := outs[t].(enabled := enabling)];
            (Contains(crtcs, o.crtcId) ==>
               UnionAll(ScreenRects(outs[..n], crtcs, false))
                 == Union(UnionAll(ScreenRects(outs[..m], crtcs, false)), Get(crtcs, o.crtcId).value.Rect())
               && UnionAll(ScreenRects(flipped[..n], crtcs, true))
                 == (if InNewScreen(outs, t, enabling, m)
                     then Union(UnionAll(ScreenRects(flipped[..m], crtcs, true)), Get(crtcs, o.crtcId).value.Rect())
                     else UnionAll(ScreenRects(flipped[..m], crtcs, true))))
            && (!Contains(crtcs, o.crtcId) ==>
                  UnionAll(ScreenRects(outs[..n], crtcs, false)) == UnionAll(ScreenRects(outs[..m], crtcs, false))
                  && UnionAll(ScreenRects(flipped[..n], crtcs, true)) == UnionAll(ScreenRects(flipped[..m], crtcs, true)))
  {
    var flipped := outs[t := outs[t].(enabled := enabling)];
    assert flipped[n - 1].crtcId == outs[n - 1].crtcId;
    assert flipped[n - 1].enabled == InNewScreen(outs, t, enabling, n - 1);
    UnionStep(outs, crtcs, false, n);
    UnionStep(flipped, crtcs, true, n);
  }

  /**
    The single pass over the whole list gives the two screens the two-pass
    variant computes once the target's flag is set.
   */
  lemma PassAgreesWithTwoPasses(s: State, t: nat, enabling: bool)
    requires t < |s.outputs|
    ensures var r := Pass(s.outputs, s.crtcs, t, enabling, |s.outputs|);
            r.0 == TotalScreen(SetFlag(s, t, enabling)) && r.1 == Screen(SetFlag(s, t, enabling))
  {
    var outs := s.outputs;
    var flipped := outs[t := outs[t].(enabled := enabling)];
    PassUnions(outs, s.crtcs, t, enabling, |outs|);
    assert outs[..|outs|] == outs;
    assert flipped[..|outs|] == flipped;
    assert SetFlag(s, t, enabling).outputs == flipped;
    TotalIgnoresFlags(outs, s.crtcs, t, enabling);
  }

  /** The commit loop with the screens of the single pass; the flag is set only now. */
  function CommitPass(s: State, t: nat, enabling: bool, status: Xrandr.CrtcRequest -> nat): (r: Outcome)
    requires t < |s.outputs|
    ensures r.state == SetFlag(s, t, enabling)
  {
    var screens := Pass(s.outputs, s.crtcs, t, enabling, |s.outputs|);
    var s1 := SetFlag(s, t, enabling);
    var reqs := Commits(s1, screens.0, screens.1);
    Outcome(s1, AllSucceed(reqs, status), Bracket(true, reqs))
  }

  /** QRRScreenRessources::enableOutput(out) for the output at position `t`. */
  function EnableOutput(s: State, t: nat, status: Xrandr.CrtcRequest -> nat): (r: Outcome)
    requires Valid(s) && t < |s.outputs|
    ensures Valid(r.state)
    ensures s.outputs[t].enabled ==> r == Outcome(s, true, [])
    ensures !s.outputs[t].enabled && !Contains(s.crtcs, s.outputs[t].crtcId) ==> r == Outcome(s, false, [])
    ensures !s.outputs[t].enabled && Contains(s.crtcs, s.outputs[t].crtcId) ==>
              r.state == SetFlag(s, t, true) && |r.trace| == |s.crtcs| + 2
    ensures r == QrrScreenResources.EnableOutput(s, t, status)
  {
    PassAgreesWithTwoPasses(s, t, true);
    var o := s.outputs[t];
    if o.enabled then Outcome(s, true, [])
    else if !Contains(s.crtcs, o.crtcId) then Outcome(s, false, [])
    else CommitPass(s, t, true, status)
  }

  /**
    QRRScreenRessources::disableOutput(out) for the output at position `t`.
    Like its successor it can switch off the last enabled output.
   */
  function DisableOutput(s: State, t: nat, status: Xrandr.CrtcRequest -> nat): (r: Outcome)
    requires Valid(s) && t < |s.outputs|
    ensures Valid(r.state)
    ensures !s.outputs[t].enabled ==> r == Outcome(s, true, [])
    ensures s.outputs[t].enabled && !Contains(s.crtcs, s.outputs[t].crtcId) ==> r == Outcome(s, false, [])
    ensures s.outputs[t].enabled && Contains(s.crtcs, s.outputs[t].crtcId) ==>
              r.state == SetFlag(s, t, false) && |r.trace| == |s.crtcs| + 2
    ensures r == QrrScreenResources.DisableOutput(s, t, status)
  {
    PassAgreesWithTwoPasses(s, t, false);
    var o := s.outputs[t];
    if !o.enabled then Outcome(s, true, [])
    else if !Contains(s.crtcs, o.crtcId) then Outcome(s, false, [])
    else CommitPass(s, t, false, status)
  }

  /**
    Computing the screens in one pass before setting the flag sends the
    same requests, gives the same answer and leaves the same state as
    setting the flag first and computing them in two passes.
   */
  lemma SinglePassAgrees(s: State, t: nat, status: Xrandr.CrtcRequest -> nat)
    requires Valid(s) && t < |s.outputs|
    ensures EnableOutput(s, t, status) == QrrScreenResources.EnableOutput(s, t, status)
    ensures DisableOutput(s, t, status) == QrrScreenResources.DisableOutput(s, t, status)
  {
  }
}
