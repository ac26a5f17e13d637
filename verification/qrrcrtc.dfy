/**
  QRRCrtc: the cached description of one CRTC (xrrcrtc.cpp and qrrcrtc.cpp
  hold the same class). The origin and size are the geometry the CRTC had
  when it was first fetched; the engine never refreshes them.
 */
module QrrCrtc {
  import opened Geometry
  import opened Decimal
  import opened OrdMap
  import Xrandr

  datatype Crtc = Crtc(x: int, y: int, width: nat, height: nat,
                       mode: nat, rotation: nat, outputs: seq<nat>) {

    /** QRRCrtc::rect(): QRect(x, y, width, height). */
    function Rect(): Geometry.Rect {
      Geometry.Rect(x, y, width, height)
    }
  }

  /**
    The CRTC record built from an XRRCrtcInfo reply. A null reply gives an
    empty rectangle at the origin, mode None, rotation RR_Rotate_0 and no
    outputs (see the finding on CrtcFromInfoAsWritten).
   */
  function CrtcFromInfo(info: Option<Xrandr.CrtcInfo>): (c: Crtc)
    ensures info.None? ==> c.Rect() == NullRect && c.mode == Xrandr.None
                           && c.rotation == Xrandr.Rotate0 && c.outputs == []
    ensures info.Some? ==> ToInfo(c) == info.value
  {
    match info
    case None => Crtc(0, 0, 0, 0, Xrandr.None, Xrandr.Rotate0, [])
    case Some(i) => Crtc(i.x, i.y, i.width, i.height, i.mode, i.rotation, i.outputs)
  }

  /** The reply a CRTC record describes. */
  function ToInfo(c: Crtc): Xrandr.CrtcInfo {
    Xrandr.CrtcInfo(c.x, c.y, c.width, c.height, c.mode, c.rotation, c.outputs)
  }

  /**
    The constructor as written: every field is guarded against a null reply,
    but the output list is copied through `info->noutput` unguarded, so a
    null reply dereferences null. None here stands for that crash.
   */
  function CrtcFromInfoAsWritten(info: Option<Xrandr.CrtcInfo>): (r: Option<Crtc>)
    ensures r.Some? <==> info.Some?
    ensures r.Some? ==> ToInfo(r.value) == info.value
  {
    match info
    case None => None
    case Some(i) => Some(Crtc(i.x, i.y, i.width, i.height, i.mode, i.rotation, i.outputs))
  }

  /**
    The discrepancy: the null-reply defaults the constructor spells out are
    unreachable as written, while the corrected constructor yields them.
   */
  lemma NullCrtcInfoCrashes()
    ensures CrtcFromInfoAsWritten(None).None?
    ensures CrtcFromInfo(None).Rect().IsNull()
  {
  }

  /** Both constructors agree whenever the reply is present. */
  lemma CrtcConstructorsAgree(info: Xrandr.CrtcInfo)
    ensures CrtcFromInfoAsWritten(Some(info)) == Some(CrtcFromInfo(Some(info)))
  {
  }

  /** `xs` occurs in `ys` with its order kept, possibly with gaps. */
  predicate Subsequence(xs: seq<nat>, ys: seq<nat>)
    decreases |ys|
  {
    if |xs| == 0 then true
    else if |ys| == 0 then false
    else (xs[0] == ys[0] && Subsequence(xs[1..], ys[1..])) || Subsequence(xs, ys[1..])
  }

  /**
    The outputs a CRTC keeps when its origin is updated: the attached ids
    that `keep` accepts, in their original order (the erase loop of
    updateCrtcOrigin / actualizeCrtcOrigin).
   */
  function KeepOutputs(ids: seq<nat>, keep: nat -> bool): (r: seq<nat>)
    ensures forall id :: id in r <==> id in ids && keep(id)
    ensures Subsequence(r, ids)
    ensures (forall id :: id in ids ==> keep(id)) ==> r == ids
  {
    if |ids| == 0 then []
    else if keep(ids[0]) then [ids[0]] + KeepOutputs(ids[1..], keep)
    else KeepOutputs(ids[1..], keep)
  }

  /**
    `ans &= updateCrtcOrigin(...)` over a list of requests: every request is
    sent, and the result is true exactly when every status is success.
   */
  function AllSucceed(reqs: seq<Xrandr.CrtcRequest>, status: Xrandr.CrtcRequest -> nat): (ok: bool)
    ensures ok <==> forall i :: 0 <= i < |reqs| ==> status(reqs[i]) == Xrandr.SetConfigSuccess
  {
    if |reqs| == 0 then true
    else (status(reqs[0]) == Xrandr.SetConfigSuccess) && AllSucceed(reqs[1..], status)
  }

  /**
    The RRSetCrtcConfig request of updateCrtcOrigin: switched off (origin
    (0,0), mode None, RR_Rotate_0, no outputs) when no attached output is
    still enabled, otherwise placed at `origin` with its stored mode and
    rotation and the remaining outputs.
   */
  function OriginRequest(id: nat, c: Crtc, origin: Point, keep: nat -> bool): (q: Xrandr.CrtcRequest)
    ensures q.crtc == id
    ensures q.outputs == KeepOutputs(c.outputs, keep)
    ensures q.outputs == [] ==> q == Xrandr.SetCrtcConfig(id, 0, 0, Xrandr.None, Xrandr.Rotate0, [])
    ensures q.outputs != [] ==> q.x == origin.x && q.y == origin.y
                                && q.mode == c.mode && q.rotation == c.rotation
  {
    var kept := KeepOutputs(c.outputs, keep);
    if kept == [] then Xrandr.SetCrtcConfig(id, 0, 0, Xrandr.None, Xrandr.Rotate0, [])
    else Xrandr.SetCrtcConfig(id, origin.x, origin.y, c.mode, c.rotation, kept)
  }

  /**
    The origin every cached CRTC is committed at: its cached top-left moved
    by totalScreen.topLeft - newScreen.topLeft.
   */
  function NewOrigin(c: Crtc, total: Geometry.Rect, screen: Geometry.Rect): (p: Point)
    ensures Add(p, Sub(screen.TopLeft(), total.TopLeft())) == c.Rect().TopLeft()
  {
    Add(Sub(c.Rect().TopLeft(), screen.TopLeft()), total.TopLeft())
  }

  /**
    The requests of one commit loop over the cached CRTCs `cs`, in key
    order: every CRTC moved to its new origin, keeping the outputs `keep`
    accepts.
   */
  function Requests(cs: Entries<Crtc>, keep: nat -> bool, total: Geometry.Rect, screen: Geometry.Rect)
    : (reqs: seq<Xrandr.CrtcRequest>)
    ensures |reqs| == |cs|
    ensures forall i :: 0 <= i < |cs| ==>
              reqs[i].crtc == cs[i].0 && reqs[i].outputs == KeepOutputs(cs[i].1.outputs, keep)
    ensures forall i :: 0 <= i < |cs| && reqs[i].outputs != [] ==>
              Add(Point(reqs[i].x, reqs[i].y), Sub(screen.TopLeft(), total.TopLeft())) == cs[i].1.Rect().TopLeft()
              && reqs[i].mode == cs[i].1.mode && reqs[i].rotation == cs[i].1.rotation
    ensures forall i :: 0 <= i < |cs| && reqs[i].outputs == [] ==>
              reqs[i] == Xrandr.SetCrtcConfig(cs[i].0, 0, 0, Xrandr.None, Xrandr.Rotate0, [])
  {
    seq(|cs|, i requires 0 <= i < |cs| => OriginRequest(cs[i].0, cs[i].1, NewOrigin(cs[i].1, total, screen), keep))
  }

  /** The events of one commit pass: the requests, bracketed by a server grab when asked. */
  function Bracket(grab: bool, reqs: seq<Xrandr.CrtcRequest>): (t: seq<Xrandr.Event>)
    ensures |t| == |reqs| + (if grab then 2 else 0)
    ensures grab ==> t[0] == Xrandr.GrabServer && t[|t| - 1] == Xrandr.UngrabServer
    ensures forall i :: 0 <= i < |reqs| ==> t[i + (if grab then 1 else 0)] == Xrandr.Commit(reqs[i])
  {
    var commits := seq(|reqs|, i requires 0 <= i < |reqs| => Xrandr.Commit(reqs[i]));
    if grab then [Xrandr.GrabServer] + commits + [Xrandr.UngrabServer] else commits
  }

  /** The CRTC cache of a screen-resources object after a lookup, and the lookup's answer. */
  datatype Lookup = Lookup(cache: Entries<Crtc>, crtc: Option<Crtc>)

  /**
    The screen resources' crtc(id): None for the None id; otherwise the
    cached record, fetching the reply with `fetch` (XRRGetCrtcInfo) and
    caching it only when the id has not been seen yet.
   */
  function CachedCrtc(cache: Entries<Crtc>, id: nat, fetch: nat -> Option<Xrandr.CrtcInfo>): (r: Lookup)
    requires Sorted(cache)
    ensures Sorted(r.cache)
    ensures r.crtc.Some? <==> id != Xrandr.None
    ensures id != Xrandr.None ==> Get(r.cache, id) == r.crtc
    ensures forall k :: k != id ==> Get(r.cache, k) == Get(cache, k)
    ensures Contains(cache, id) ==> r.cache == cache
    ensures id == Xrandr.None ==> r.cache == cache
    ensures forall k :: Contains(cache, k) ==> Contains(r.cache, k)
    ensures id != Xrandr.None && !Contains(cache, id) ==> r.crtc == Some(CrtcFromInfo(fetch(id)))
  {
    if id == Xrandr.None then Lookup(cache, None)
    else if Contains(cache, id) then Lookup(cache, Get(cache, id))
    else
      var c := CrtcFromInfo(fetch(id));
      PutKeepsKeys(cache, id, c);
      Lookup(Put(cache, id, c), Some(c))
  }

  /**
    Once an id is cached, later lookups neither consult the server nor change
    the cache: the geometry stays the one fetched first.
   */
  lemma CachedCrtcFetchesOnce(cache: Entries<Crtc>, id: nat,
                              first: nat -> Option<Xrandr.CrtcInfo>, later: nat -> Option<Xrandr.CrtcInfo>)
    requires Sorted(cache) && id != Xrandr.None
    ensures var r := CachedCrtc(cache, id, first);
            CachedCrtc(r.cache, id, later) == r
    ensures !Contains(cache, id) ==>
              CachedCrtc(CachedCrtc(cache, id, first).cache, id, later).crtc == Some(CrtcFromInfo(first(id)))
  {
  }

  /** QRRCrtc::display(): "WxH+X+Y". */
  function Display(c: Crtc): string
  {
    GeometryText(c.width, c.height, c.x, c.y)
  }

  /** The display string determines the CRTC geometry. */
  lemma DisplayDeterminesGeometry(c: Crtc, d: Crtc)
    requires Display(c) == Display(d)
    ensures c.Rect() == d.Rect()
  {
    GeometryTextInjective(c.width, c.height, c.x, c.y, d.width, d.height, d.x, d.y);
  }
}
