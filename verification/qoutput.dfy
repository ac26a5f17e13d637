/**
  QOutput: one physical display connector as the engine sees it.

  The two backends subclass QOutput; here the subclass is the `kind` of an
  Output, and a backend that receives an output of the other kind rejects
  it exactly where the C++ dynamic_cast fails.
 */
module QOutput {
  import opened Geometry
  import opened OrdMap

  /** QOutput::Connection */
  datatype Connection = Unknown | Disconnected | Connected

  /** A QString, which may be null (QString()) as opposed to merely empty. */
  datatype QStr = NullStr | Str(text: string) {
    predicate IsNull() { NullStr? }

    /** The characters; a null string reads as empty. */
    function Chars(): string {
      match this
      case NullStr => ""
      case Str(t) => t
    }
  }

  const TwoTo32 := 0x1_0000_0000

  /** uint32_t */
  type U32 = x: int | 0 <= x < TwoTo32

  /** Unsigned 32-bit subtraction: wraps around modulo 2^32. */
  function U32Sub(a: U32, b: U32): (r: U32)
    ensures a >= b ==> r == a - b
    ensures a < b ==> r == a - b + TwoTo32
  {
    (a - b) % TwoTo32
  }

  /** A KScreen::Output as the KScreen library reports it. */
  datatype KOutputInfo = KOutputInfo(id: nat, name: string, mmWidth: int, mmHeight: int,
                                     connected: bool, enabled: bool, pos: Point,
                                     width: nat, height: nat, priority: U32)

  /** The backend-specific part of an output. */
  datatype Kind =
      /** XRandROutput: the id of the CRTC the output had when it was read. */
    | XRandR(crtcId: nat)
      /**
        KScreenOutput: `handle` is the object's identity (its key may change),
        `rect` and `priority` are the original configuration, `live` is the
        KScreen output object the output was built from.
       */
    | KScreen(handle: nat, rect: Rect, priority: U32, live: Option<KOutputInfo>)

  datatype Output = Output(name: QStr, physicalWidth: int, physicalHeight: int,
                           connection: Connection, enabled: bool, kind: Kind)

  /** The enabled flag a freshly constructed QOutput starts with, before the backend sets it. */
  const InitialEnabled := false

  /** Sets the enabled flag and nothing else. */
  function WithEnabled(o: Output, flag: bool): (r: Output)
    ensures r.enabled == flag
    ensures r.(enabled := o.enabled) == o
  {
    o.(enabled := flag)
  }
}
