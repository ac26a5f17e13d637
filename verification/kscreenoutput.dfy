/**
  KScreenOutput (kscreenoutput.cpp): an output built from a KScreen::Output.
  The object remembers the geometry and the priority it was built with;
  later refreshes only touch its connection state.
 */
module KScreenOutput {
  import opened Geometry
  import opened OrdMap
  import opened QOutput
  import opened Decimal

  /** The rectangle a KScreen output occupies: its position and its mode size. */
  function InfoRect(i: KOutputInfo): Rect {
    Rect(i.pos.x, i.pos.y, i.width, i.height)
  }

  /** The connection state a non-null KScreen output reports. */
  function InfoConnection(i: KOutputInfo): (c: Connection)
    ensures c == Connected <==> i.connected
    ensures c != Unknown
  {
    if i.connected then Connected else Disconnected
  }

  /**
    KScreenOutput::KScreenOutput(parent, output). A null KScreen output gives
    a null name, zero physical size, an unknown connection, a null rectangle,
    priority 0 and a disabled output; `handle` is the identity of the new
    object.
   */
  function FromInfo(handle: nat, info: Option<KOutputInfo>): (o: Output)
    ensures o.kind.KScreen? && o.kind.handle == handle && o.kind.live == info
    ensures info.None? ==> o.name == NullStr && o.physicalWidth == 0 && o.physicalHeight == 0
                           && o.connection == Unknown && o.kind.rect == NullRect
                           && o.kind.priority == 0 && !o.enabled
    ensures info.Some? ==> o.name == Str(info.value.name)
                           && o.physicalWidth == info.value.mmWidth
                           && o.physicalHeight == info.value.mmHeight
                           && (o.connection == Connected <==> info.value.connected)
                           && o.connection != Unknown
                           && o.kind.rect.TopLeft() == info.value.pos
                           && o.kind.rect.width == info.value.width
                           && o.kind.rect.height == info.value.height
                           && o.kind.priority == info.value.priority
                           && o.enabled == info.value.enabled
  {
    match info
    case None => Output(NullStr, 0, 0, Unknown, false, KScreen(handle, NullRect, 0, None))
    case Some(i) =>
      Output(Str(i.name), i.mmWidth, i.mmHeight, InfoConnection(i), i.enabled,
             KScreen(handle, InfoRect(i), i.priority, info))
  }

  /**
    KScreenOutput::update(output): when the reported output is non-null and
    enabled, the connection state is taken from it; nothing else changes.
   */
  function Update(o: Output, info: Option<KOutputInfo>): (r: Output)
    ensures r.(connection := o.connection) == o
    ensures info.Some? && info.value.enabled ==> (r.connection == Connected <==> info.value.connected)
                                                 && r.connection != Unknown
    ensures info.None? || !info.value.enabled ==> r == o
  {
    if info.Some? && info.value.enabled then o.(connection := InfoConnection(info.value)) else o
  }

  /** Updating an output from the KScreen output it was just built from changes nothing. */
  lemma UpdateAgreesWithConstruction(handle: nat, info: Option<KOutputInfo>)
    ensures Update(FromInfo(handle, info), info) == FromInfo(handle, info)
  {
  }

  /**
    Updating is idempotent: a second update from the same KScreen output
    finds nothing left to change.
   */
  lemma UpdateIdempotent(o: Output, info: Option<KOutputInfo>)
    ensures Update(Update(o, info), info) == Update(o, info)
  {
  }

  /**
    KScreenOutput::display(): a null string when the output was built from a
    null KScreen output, otherwise "NAME (WxH+X+Y)" from the KScreen output's
    name, mode size and position.
   */
  function Display(o: Output): (s: QStr)
    requires o.kind.KScreen?
    ensures s.IsNull() <==> o.kind.live.None?
    ensures o.kind.live.Some? ==>
              var i := o.kind.live.value;
              s.text == i.name + " (" + GeometryText(i.width, i.height, i.pos.x, i.pos.y) + ")"
  {
    match o.kind.live
    case None => NullStr
    case Some(i) => Str(i.name + " (" + GeometryText(i.width, i.height, i.pos.x, i.pos.y) + ")")
  }

  /**
    Two outputs built from same-named KScreen outputs display the same text
    only when those outputs have the same rectangle.
   */
  lemma DisplayDeterminesRect(o: Output, p: Output)
    requires o.kind.KScreen? && p.kind.KScreen?
    requires o.kind.live.Some? && p.kind.live.Some? && o.kind.live.value.name == p.kind.live.value.name
    requires Display(o) == Display(p)
    ensures InfoRect(o.kind.live.value) == InfoRect(p.kind.live.value)
  {
    var i, j := o.kind.live.value, p.kind.live.value;
    var gi := GeometryText(i.width, i.height, i.pos.x, i.pos.y);
    var gj := GeometryText(j.width, j.height, j.pos.x, j.pos.y);
    var prefix := i.name + " (";
    assert prefix + gi + ")" == prefix + gj + ")";
    assert gi == (prefix + gi + ")")[|prefix|..|prefix| + |gi|];
    assert |gi| == |gj|;
    assert gj == (prefix + gj + ")")[|prefix|..|prefix| + |gj|];
    GeometryTextInjective(i.width, i.height, i.pos.x, i.pos.y, j.width, j.height, j.pos.x, j.pos.y);
  }
}
