/** Package xss: the screen-saver status record and the query that fills it
    from the MIT-SCREEN-SAVER extension's `XScreenSaverQueryInfo` reply. */
module Xss {
  import opened GoTypes
  import opened XScreenSaver

  datatype Option<T> = None | Some(value: T)

  // ---------------------------------------------------------------------------
  // Kind

  /** Go `type Kind int` (64 bits): any int is a Kind, three of them are named. */
  newtype Kind = x: int | -0x8000_0000_0000_0000 <= x < 0x8000_0000_0000_0000

  const Blanked: Kind := 0
  const Internal: Kind := 1
  const External: Kind := 2

  /** `Kind.String`: the name of a named kind, "unknown" for every other value. */
  function KindString(k: Kind): (s: string)
    ensures s == "blanked" <==> k == Blanked
    ensures s == "internal" <==> k == Internal
    ensures s == "external" <==> k == External
    ensures s == "unknown" <==> k !in {Blanked, Internal, External}
  {
    if k == Blanked then "blanked"
    else if k == Internal then "internal"
    else if k == External then "external"
    else "unknown"
  }

  // ---------------------------------------------------------------------------
  // Info

  /** One snapshot of the screen saver's status and timing. */
  datatype Info = Info(
    enabled: bool,
    active: bool,
    kind: Kind,
    countdown: Duration,
    activeTime: Duration,
    idleTime: Duration)

  /** The zero value `Info{}`. */
  const ZeroInfo: Info := Info(false, false, Blanked, 0, 0, 0)

  /** The consistency every returned Info has: the saver is only active while
      enabled, the countdown only runs while enabled and inactive, the active
      time only while active, so at most one of the two is non-zero. */
  predicate Coherent(i: Info)
  {
    (i.active ==> i.enabled) &&
    (i.countdown == 0 || i.activeTime == 0) &&
    (!i.active ==> i.activeTime == 0) &&
    (!(i.enabled && !i.active) ==> i.countdown == 0)
  }

  // ---------------------------------------------------------------------------
  // Decoding

  /** `time.Duration(ms) * time.Millisecond` for a C `unsigned long` ms: the
      conversion reinterprets the 64 bits, the product wraps around, so the
      result is ms milliseconds modulo 2^64 nanoseconds. */
  function MillisToDuration(ms: CULong): (d: Duration)
    ensures (ms as int * 1_000_000 - d as int) % Modulus == 0
  {
    ConvertThenMultiply(ms, Millisecond);
    MulInt64(Int64FromUint64(ms), Millisecond)
  }

  /** The conversion is the exact product `ms * 1_000_000`, wrapped to int64
      once, whatever the size of ms. */
  lemma MillisToDurationWraps(ms: CULong)
    ensures MillisToDuration(ms) == Wrap(ms as int * 1_000_000)
  {
    if ms as int >= 0x8000_0000_0000_0000 {
      assert Int64FromUint64(ms) as int == ms as int - Modulus;
      assert (ms as int - Modulus) * 1_000_000 == ms as int * 1_000_000 + (-1_000_000) * Modulus;
      WrapCongruent(ms as int * 1_000_000, -1_000_000);
    }
  }

  /** The conversion is exact precisely when the product fits in int64. */
  lemma MillisToDurationExact(ms: CULong)
    ensures MillisToDuration(ms) as int == ms as int * 1_000_000
        <==> ms as int * 1_000_000 < 0x8000_0000_0000_0000
  {
    MillisToDurationWraps(ms);
  }

  /** For a CARD32 count, as the protocol delivers, the conversion never
      overflows: the duration is exactly ms milliseconds and non-negative. */
  lemma MillisToDurationOfCard32(ms: CULong)
    requires ms < 0x1_0000_0000
    ensures MillisToDuration(ms) as int == ms as int * 1_000_000
    ensures MillisToDuration(ms) >= 0
  {
    MillisToDurationExact(ms);
  }

  /** The kind code switch: the three codes map to the matching Kind, any
      other code leaves the zero value Blanked. */
  function DecodeKind(code: CInt): (k: Kind)
    ensures code == ScreenSaverInternal <==> k == Internal
    ensures code == ScreenSaverExternal <==> k == External
    ensures code !in {ScreenSaverInternal, ScreenSaverExternal} <==> k == Blanked
  {
    if code == ScreenSaverBlanked then Blanked
    else if code == ScreenSaverInternal then Internal
    else if code == ScreenSaverExternal then External
    else Blanked
  }

  /** The Info a successful query returns for a reply, field by field. */
  function Decode(raw: RawReply): (i: Info)
    ensures Coherent(i)
  {
    Info(
      enabled := raw.state == ScreenSaverOn || raw.state == ScreenSaverOff,
      active := raw.state == ScreenSaverOn,
      kind := DecodeKind(raw.kind),
      countdown := if raw.state == ScreenSaverOff then MillisToDuration(raw.tilOrSince) else 0,
      activeTime := if raw.state == ScreenSaverOn then MillisToDuration(raw.tilOrSince) else 0,
      idleTime := MillisToDuration(raw.idle))
  }

  /** The idle time is the raw idle count in milliseconds whatever the state
      and kind codes say, exact for CARD32 counts. */
  lemma DecodeIdleTime(raw: RawReply)
    ensures Decode(raw).idleTime == MillisToDuration(raw.idle)
    ensures raw.idle < 0x1_0000_0000 ==>
      Decode(raw).idleTime as int == raw.idle as int * 1_000_000 && Decode(raw).idleTime >= 0
  {
    if raw.idle < 0x1_0000_0000 {
      MillisToDurationOfCard32(raw.idle);
    }
  }

  /** State On: enabled and active, the time field is the time active. */
  lemma DecodeStateOn(raw: RawReply)
    requires raw.state == ScreenSaverOn
    ensures Decode(raw).enabled && Decode(raw).active
    ensures Decode(raw).activeTime == MillisToDuration(raw.tilOrSince)
    ensures Decode(raw).countdown == 0
    ensures raw.tilOrSince < 0x1_0000_0000 ==>
      Decode(raw).activeTime as int == raw.tilOrSince as int * 1_000_000
  {
    if raw.tilOrSince < 0x1_0000_0000 {
      MillisToDurationOfCard32(raw.tilOrSince);
    }
  }

  /** State Off: enabled, not active, the time field is the countdown. */
  lemma DecodeStateOff(raw: RawReply)
    requires raw.state == ScreenSaverOff
    ensures Decode(raw).enabled && !Decode(raw).active
    ensures Decode(raw).countdown == MillisToDuration(raw.tilOrSince)
    ensures Decode(raw).activeTime == 0
    ensures raw.tilOrSince < 0x1_0000_0000 ==>
      Decode(raw).countdown as int == raw.tilOrSince as int * 1_000_000
  {
    if raw.tilOrSince < 0x1_0000_0000 {
      MillisToDurationOfCard32(raw.tilOrSince);
    }
  }

  /** State Disabled, or any code the switch does not match: neither enabled
      nor active, both times zero, whatever the time field holds. */
  lemma DecodeStateOther(raw: RawReply)
    requires raw.state != ScreenSaverOn && raw.state != ScreenSaverOff
    ensures !Decode(raw).enabled && !Decode(raw).active
    ensures Decode(raw).countdown == 0 && Decode(raw).activeTime == 0
  {
  }

  /** The kind code decides the kind and nothing else: changing it changes
      only the kind field, and an unmatched code gives Blanked. */
  lemma DecodeKindOnly(raw: RawReply, code: CInt)
    ensures Decode(raw.(kind := code)) == Decode(raw).(kind := DecodeKind(code))
    ensures code !in {ScreenSaverBlanked, ScreenSaverInternal, ScreenSaverExternal} ==>
      Decode(raw.(kind := code)).kind == Blanked
  {
  }

  /** Outside states On and Off the time field is discarded: any value of it
      decodes to the same Info. */
  lemma DecodeDiscardsTime(raw: RawReply, time: CULong)
    requires raw.state != ScreenSaverOn && raw.state != ScreenSaverOff
    ensures Decode(raw.(tilOrSince := time)) == Decode(raw)
  {
  }

  /** Decoding never yields a kind that prints as "unknown". */
  lemma DecodedKindIsNamed(code: CInt)
    ensures KindString(DecodeKind(code)) != "unknown"
  {
  }

  /** On well-formed replies two replies that decode to the same Info are the
      same reply. On other replies the time field of a Disabled or unmatched
      state is discarded (`DecodeDiscardsTime`). */
  lemma DecodeInjective(r1: RawReply, r2: RawReply)
    requires WellFormedReply(r1) && WellFormedReply(r2)
    requires Decode(r1) == Decode(r2)
    ensures r1 == r2
  {
    MillisToDurationOfCard32(r1.idle);
    MillisToDurationOfCard32(r2.idle);
    MillisToDurationOfCard32(r1.tilOrSince);
    MillisToDurationOfCard32(r2.tilOrSince);
  }

  /** A duration a CARD32 millisecond count converts to: a whole,
      non-negative number of milliseconds below 2^32 ms. */
  predicate IsCard32Millis(d: Duration)
  {
    0 <= d && d % Millisecond == 0 && d / Millisecond < 0x1_0000_0000
  }

  /** The Infos that well-formed replies decode to: coherent, with a named
      kind and whole CARD32 millisecond durations. */
  predicate ProtocolInfo(i: Info)
  {
    Coherent(i) && i.kind in {Blanked, Internal, External} &&
    IsCard32Millis(i.countdown) && IsCard32Millis(i.activeTime) && IsCard32Millis(i.idleTime)
  }

  /** The range of decoding on well-formed replies is exactly the protocol
      Infos: every well-formed reply decodes to one, and every one of them is
      the decoding of some well-formed reply. */
  lemma DecodeRange(i: Info)
    ensures ProtocolInfo(i) <==> exists raw :: WellFormedReply(raw) && Decode(raw) == i
  {
    if ProtocolInfo(i) {
      var state := if i.active then ScreenSaverOn
                   else if i.enabled then ScreenSaverOff
                   else ScreenSaverDisabled;
      var code := if i.kind == Internal then ScreenSaverInternal
                  else if i.kind == External then ScreenSaverExternal
                  else ScreenSaverBlanked;
      var time := ((i.countdown + i.activeTime) / Millisecond) as CULong;
      var idle := (i.idleTime / Millisecond) as CULong;
      var raw := RawReply(state, code, time, idle);
      MillisToDurationOfCard32(time);
      MillisToDurationOfCard32(idle);
      assert WellFormedReply(raw) && Decode(raw) == i;
    }
    if raw :| WellFormedReply(raw) && Decode(raw) == i {
      MillisToDurationOfCard32(raw.tilOrSince);
      MillisToDurationOfCard32(raw.idle);
    }
  }

  /** The idle-time values 0, 1 ms, 1 s and one day convert exactly. */
  lemma MillisToDurationExamples()
    ensures MillisToDuration(0) == 0
    ensures MillisToDuration(1) == Millisecond
    ensures MillisToDuration(1000) == 1_000_000_000
    ensures MillisToDuration(86_400_000) == 86_400_000_000_000
  {
    MillisToDurationOfCard32(1000);
    MillisToDurationOfCard32(86_400_000);
  }

  // ---------------------------------------------------------------------------
  // Client

  const QueryErrorMessage: string := "Error querying XSS."

  /** A connection to the extension: the display handle and the reply buffer
      shared by all queries. Copies of a Client share the buffer. */
  class Client {
    var disp: Display?
    var info: ScreenSaverInfo?

    /** The client `NewClient` builds once the display is open and the
        extension is present. */
    constructor (disp: Display, info: ScreenSaverInfo)
      ensures this.disp == disp && this.info == info
    {
      this.disp := disp;
      this.info := info;
    }

    /** `Query` on a client built by `NewClient`. The foreign call returns
        `status` and leaves `reply` in the shared buffer; a zero status is an
        error with the zero Info, otherwise the buffer is decoded. The client
        itself is a value receiver and is not changed. */
    method Query(status: Status, reply: RawReply) returns (i: Info, err: Option<string>)
      requires disp != null && info != null
      modifies info
      ensures info.Reply() == reply
      ensures status == 0 ==> i == ZeroInfo && err == Some(QueryErrorMessage)
      ensures status != 0 ==> i == Decode(reply) && err == None
      ensures Coherent(i)
    {
      i, err := ZeroInfo, None;
      info.Fill(reply);
      if status == 0 {
        err := Some(QueryErrorMessage);
        return;
      }
      i := i.(idleTime := MillisToDuration(info.idle));
      if info.state == ScreenSaverOn {
        i := i.(enabled := true, active := true, activeTime := MillisToDuration(info.tilOrSince));
      } else if info.state == ScreenSaverOff {
        i := i.(enabled := true, active := false, countdown := MillisToDuration(info.tilOrSince));
      } else if info.state == ScreenSaverDisabled {
        i := i.(enabled := false, active := false);
      }
      if info.kind == ScreenSaverBlanked {
        i := i.(kind := Blanked);
      } else if info.kind == ScreenSaverInternal {
        i := i.(kind := Internal);
      } else if info.kind == ScreenSaverExternal {
        i := i.(kind := External);
      }
    }
  }
}
