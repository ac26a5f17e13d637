/**
  XRandROutput (xrroutput.cpp): an output read from an XRROutputInfo reply.
 */
module XRandROutput {
  import opened OrdMap
  import opened QOutput
  import opened QrrCrtc
  import opened Decimal
  import Xrandr

  /** Connection classification of an RRGetOutputInfo reply. */
  function Classify(info: Option<Xrandr.OutputInfo>): (c: Connection)
    ensures c == Connected <==> info.Some? && info.value.connection == Xrandr.RRConnected
    ensures c == Disconnected <==> info.Some? && info.value.connection == Xrandr.RRDisconnected
  {
    match info
    case None => Unknown
    case Some(i) =>
      if i.connection == Xrandr.RRDisconnected then Disconnected
      else if i.connection == Xrandr.RRConnected then Connected
      else Unknown
  }

  /** The constructed output and the parent's CRTC cache afterwards. */
  datatype Built = Built(output: Output, cache: Entries<Crtc>)

  /**
    XRandROutput::XRandROutput(parent, info). The output is enabled when the
    parent's crtc(info->crtc) is not null, which caches that CRTC as a side
    effect.
   */
  function FromInfo(cache: Entries<Crtc>, info: Option<Xrandr.OutputInfo>,
                    fetch: nat -> Option<Xrandr.CrtcInfo>): (b: Built)
    requires Sorted(cache)
    ensures Sorted(b.cache)
    ensures b.output.kind.XRandR?
    ensures b.output.enabled <==> info.Some? && info.value.crtc != Xrandr.None
    ensures b.output.connection == Classify(info)
    ensures info.None? ==> b.output.name == NullStr && b.output.physicalWidth == 0
                           && b.output.physicalHeight == 0 && b.output.kind.crtcId == Xrandr.None
    ensures info.Some? ==> b.output.name == Str(info.value.name) && b.output.kind.crtcId == info.value.crtc
                           && b.output.physicalWidth == info.value.mmWidth
                           && b.output.physicalHeight == info.value.mmHeight
    ensures b.output.enabled ==> Contains(b.cache, b.output.kind.crtcId)
    ensures forall k :: k != b.output.kind.crtcId ==> Get(b.cache, k) == Get(cache, k)
  {
    match info
    case None => Built(Output(NullStr, 0, 0, Unknown, false, XRandR(Xrandr.None)), cache)
    case Some(i) =>
      var l := CachedCrtc(cache, i.crtc, fetch);
      Built(Output(Str(i.name), i.mmWidth, i.mmHeight, Classify(info), l.crtc.Some?, XRandR(i.crtc)), l.cache)
  }

  /**
    XRandROutput::crtc(): null when the parent is not the X11 backend or the
    CRTC id is None, otherwise the parent's (cached) CRTC.
   */
  function OutputCrtc(parentIsX11: bool, cache: Entries<Crtc>, o: Output,
                      fetch: nat -> Option<Xrandr.CrtcInfo>): (l: Lookup)
    requires Sorted(cache) && o.kind.XRandR?
    ensures Sorted(l.cache)
    ensures l.crtc.Some? <==> parentIsX11 && o.kind.crtcId != Xrandr.None
    ensures l.crtc.Some? ==> Get(l.cache, o.kind.crtcId) == l.crtc
    ensures Contains(cache, o.kind.crtcId) || !parentIsX11 ==> l.cache == cache
  {
    if !parentIsX11 || o.kind.crtcId == Xrandr.None then Lookup(cache, None)
    else CachedCrtc(cache, o.kind.crtcId, fetch)
  }

  /** The user-facing name and the parent's CRTC cache afterwards. */
  datatype Shown = Shown(text: QStr, cache: Entries<Crtc>)

  /**
    XRandROutput::display(): the bare name when the name is null or there is
    no CRTC, otherwise "NAME (WxH+X+Y)".
   */
  function Display(parentIsX11: bool, cache: Entries<Crtc>, o: Output,
                   fetch: nat -> Option<Xrandr.CrtcInfo>): (s: Shown)
    requires Sorted(cache) && o.kind.XRandR?
    ensures o.name.IsNull() || !parentIsX11 || o.kind.crtcId == Xrandr.None ==> s.text == o.name
    ensures !o.name.IsNull() && parentIsX11 && o.kind.crtcId != Xrandr.None ==>
              exists c :: Get(s.cache, o.kind.crtcId) == Some(c)
                          && s.text == Str(o.name.text + " (" + QrrCrtc.Display(c) + ")")
  {
    var l := OutputCrtc(parentIsX11, cache, o, fetch);
    if o.name.IsNull() || l.crtc.None? then Shown(o.name, l.cache)
    else Shown(Str(o.name.text + " (" + QrrCrtc.Display(l.crtc.value) + ")"), l.cache)
  }
}
