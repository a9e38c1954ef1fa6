/** The C side of the MIT-SCREEN-SAVER extension that the Go package reads:
    the code constants of X11/extensions/saver.h (that header is not part of
    this model; the values below are the ones it defines), the reply fields of
    `XScreenSaverInfo` that the decode step reads, and the opaque display handle. */
module XScreenSaver {
  import opened GoTypes

  /** C `int` (32 bits) and C `unsigned long` (64 bits on LP64 Linux). */
  newtype CInt = x: int | -0x8000_0000 <= x < 0x8000_0000
  type CULong = uint64

  /** C `Status`: zero means the request failed. */
  type Status = CInt

  /** Saver state codes of the `state` field. */
  const ScreenSaverOff: CInt := 0
  const ScreenSaverOn: CInt := 1
  const ScreenSaverDisabled: CInt := 3

  /** Saver kind codes of the `kind` field. */
  const ScreenSaverBlanked: CInt := 0
  const ScreenSaverInternal: CInt := 1
  const ScreenSaverExternal: CInt := 2

  /** The four reply fields the Go package reads, as one value. */
  datatype RawReply = RawReply(state: CInt, kind: CInt, tilOrSince: CULong, idle: CULong)

  /** The replies assumed of the X server: state and kind from the defined
      sets, and the two times as CARD32 millisecond counts. The last clause,
      a zero time field while the saver is disabled, is an assumption about
      the server; nothing in the Go package checks it, and decoding discards
      the time field in that state (`DecodeDiscardsTime`). */
  predicate WellFormedReply(raw: RawReply)
  {
    raw.state in {ScreenSaverOff, ScreenSaverOn, ScreenSaverDisabled} &&
    raw.kind in {ScreenSaverBlanked, ScreenSaverInternal, ScreenSaverExternal} &&
    raw.tilOrSince < 0x1_0000_0000 && raw.idle < 0x1_0000_0000 &&
    (raw.state == ScreenSaverDisabled ==> raw.tilOrSince == 0)
  }

  /** The `XScreenSaverInfo` buffer allocated once per client and overwritten
      in place by every query. */
  class ScreenSaverInfo {
    var state: CInt
    var kind: CInt
    var tilOrSince: CULong
    var idle: CULong

    /** `XScreenSaverAllocInfo`: the contents of a fresh buffer are unspecified. */
    constructor ()
    {
    }

    /** What the buffer currently holds. */
    function Reply(): RawReply
      reads this
    {
      RawReply(state, kind, tilOrSince, idle)
    }

    /** The buffer write done by the foreign `XScreenSaverQueryInfo` call: the
        reply it leaves behind is a parameter of the model. */
    method Fill(reply: RawReply)
      modifies this
      ensures Reply() == reply
    {
      state, kind, tilOrSince, idle := reply.state, reply.kind, reply.tilOrSince, reply.idle;
    }
  }

  /** An open `Display *` connection; its contents are never inspected. */
  class Display {
    constructor ()
    {
    }
  }
}
