/**
  QRROutput (qrroutput.cpp): the output record of the two older X11
  variants. Unlike XRandROutput it keeps the RandR connection value as the
  reply gave it and the id the output was listed under.
 */
module QrrOutput {
  import opened OrdMap
  import opened QrrCrtc
  import QOutput
  import Xrandr

  datatype Output = Output(id: nat, name: QOutput.QStr, physicalWidth: int, physicalHeight: int,
                           connection: nat, crtcId: nat, enabled: bool)

  /** The constructed output and the parent's CRTC cache afterwards. */
  datatype Built = Built(output: Output, cache: Entries<Crtc>)

  /**
    QRROutput::QRROutput(parent, id, info). The output is enabled when the
    parent's crtc(info->crtc) is not null, which caches that CRTC as a side
    effect.
   */
  function FromInfo(cache: Entries<Crtc>, id: nat, info: Option<Xrandr.OutputInfo>,
                    fetch: nat -> Option<Xrandr.CrtcInfo>): (b: Built)
    requires Sorted(cache)
    ensures Sorted(b.cache)
    ensures b.output.id == id
    ensures info.None? ==> b.output == Output(id, QOutput.NullStr, 0, 0, Xrandr.RRUnknownConnection, Xrandr.None, false)
                           && b.cache == cache
    ensures info.Some? ==> b.output.name == QOutput.Str(info.value.name)
                           && b.output.physicalWidth == info.value.mmWidth
                           && b.output.physicalHeight == info.value.mmHeight
                           && b.output.connection == info.value.connection
                           && b.output.crtcId == info.value.crtc
    ensures b.output.enabled <==> b.output.crtcId != Xrandr.None
    ensures b.output.enabled ==> Contains(b.cache, b.output.crtcId)
    ensures !b.output.enabled ==> b.cache == cache
    ensures forall k :: k != b.output.crtcId ==> Get(b.cache, k) == Get(cache, k)
    ensures forall k :: Contains(cache, k) ==> Contains(b.cache, k)
  {
    match info
    case None => Built(Output(id, QOutput.NullStr, 0, 0, Xrandr.RRUnknownConnection, Xrandr.None, false), cache)
    case Some(i) =>
      var l := CachedCrtc(cache, i.crtc, fetch);
      Built(Output(id, QOutput.Str(i.name), i.mmWidth, i.mmHeight, i.connection, i.crtc, l.crtc.Some?), l.cache)
  }

  /** QRROutput::crtc(): null for the None id, otherwise the parent's cached CRTC. */
  function OutputCrtc(cache: Entries<Crtc>, o: Output, fetch: nat -> Option<Xrandr.CrtcInfo>): (l: Lookup)
    requires Sorted(cache)
    ensures Sorted(l.cache)
    ensures l.crtc.Some? <==> o.crtcId != Xrandr.None
    ensures l.crtc.Some? ==> Get(l.cache, o.crtcId) == l.crtc
    ensures Contains(cache, o.crtcId) || o.crtcId == Xrandr.None ==> l.cache == cache
  {
    if o.crtcId == Xrandr.None then Lookup(cache, None) else CachedCrtc(cache, o.crtcId, fetch)
  }

  /**
    An output just built is enabled exactly when its crtc() is not null, and
    asking for that CRTC afterwards neither fetches it again nor changes the
    cache.
   */
  lemma BuiltEnabledIffCrtc(cache: Entries<Crtc>, id: nat, info: Option<Xrandr.OutputInfo>,
                            fetch: nat -> Option<Xrandr.CrtcInfo>, later: nat -> Option<Xrandr.CrtcInfo>)
    requires Sorted(cache)
    ensures var b := FromInfo(cache, id, info, fetch);
            var l := OutputCrtc(b.cache, b.output, later);
            (l.crtc.Some? <==> b.output.enabled) && l.cache == b.cache
  {
  }

  /** The user-facing name and the parent's CRTC cache afterwards. */
  datatype Shown = Shown(text: QOutput.QStr, cache: Entries<Crtc>)

  /**
    QRROutput::display(): the bare name when the name is null or there is no
    CRTC, otherwise "NAME (WxH+X+Y)".
   */
  function Display(cache: Entries<Crtc>, o: Output, fetch: nat -> Option<Xrandr.CrtcInfo>): (s: Shown)
    requires Sorted(cache)
    ensures Sorted(s.cache)
    ensures o.name.IsNull() || o.crtcId == Xrandr.None ==> s.text == o.name
    ensures !o.name.IsNull() && o.crtcId != Xrandr.None ==>
              exists c :: Get(s.cache, o.crtcId) == Some(c)
                          && s.text == QOutput.Str(o.name.text + " (" + QrrCrtc.Display(c) + ")")
  {
    var l := OutputCrtc(cache, o, fetch);
    if o.name.IsNull() || l.crtc.None? then Shown(o.name, l.cache)
    else Shown(QOutput.Str(o.name.text + " (" + QrrCrtc.Display(l.crtc.value) + ")"), l.cache)
  }

  /**
    The display string of an enabled output names the geometry the CRTC
    had when the output was built.
   */
  lemma DisplayShowsFirstGeometry(cache: Entries<Crtc>, id: nat, info: Xrandr.OutputInfo,
                                  fetch: nat -> Option<Xrandr.CrtcInfo>, later: nat -> Option<Xrandr.CrtcInfo>)
    requires Sorted(cache) && info.crtc != Xrandr.None && !Contains(cache, info.crtc)
    ensures var b := FromInfo(cache, id, Some(info), fetch);
            Display(b.cache, b.output, later).text
              == QOutput.Str(info.name + " (" + QrrCrtc.Display(CrtcFromInfo(fetch(info.crtc))) + ")")
  {
  }
}
