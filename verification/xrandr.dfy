/**
  The slice of the X Resize and Rotate extension (RandR 1.2 requests
  RRGetOutputInfo, RRGetCrtcInfo and RRSetCrtcConfig) that the toggle engine
  reads and writes. Replies are plain records; the X server itself is a
  parameter of the operations that talk to it.
 */
module Xrandr {

  /** The X11 `None` resource id. */
  const None: nat := 0
  /** RR_Rotate_0 from randr.h. */
  const Rotate0: nat := 1
  /** RRSetConfigSuccess from randr.h. */
  const SetConfigSuccess: nat := 0

  /** Connection values of an RRGetOutputInfo reply (randr.h). */
  const RRConnected: nat := 0
  const RRDisconnected: nat := 1
  const RRUnknownConnection: nat := 2

  /** An XRRCrtcInfo reply. */
  datatype CrtcInfo = CrtcInfo(x: int, y: int, width: nat, height: nat,
                               mode: nat, rotation: nat, outputs: seq<nat>)

  /** An XRROutputInfo reply; `name` is the decoded nameLen bytes. */
  datatype OutputInfo = OutputInfo(name: string, mmWidth: int, mmHeight: int,
                                   connection: nat, crtc: nat)

  /** The arguments of one XRRSetCrtcConfig call. */
  datatype CrtcRequest = SetCrtcConfig(crtc: nat, x: int, y: int, mode: nat,
                                       rotation: nat, outputs: seq<nat>)

  /** What the engine sends to the X server, in order. */
  datatype Event = GrabServer | UngrabServer | Commit(request: CrtcRequest)
}
