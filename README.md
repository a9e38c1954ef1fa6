# go-xss-query: the screen-saver status decode, in Dafny

This project models the core of the Go package `xss`, which asks the X server's
MIT-SCREEN-SAVER extension for the screen saver's status and returns it as an
`Info` record. The record has six fields: enabled, active, kind, countdown,
active time and idle time.

The model has three modules:

- `GoTypes` (gotypes.dfy): Go's `int64` and `uint64`, the two's complement wrap-around
  of Go conversions and multiplications, and `time.Duration` with `time.Millisecond`.
- `XScreenSaver` (scrnsaver.dfy): the C side. It holds the state and kind codes of
  `X11/extensions/saver.h`: Off=0, On=1, Disabled=3 and Blanked=0, Internal=1, External=2.
  It also holds the four reply fields of `XScreenSaverInfo` that the package reads, the
  reusable reply buffer as a class whose fields the foreign call overwrites in place,
  and the opaque display handle.
- `Xss` (xss.dfy): the package. It holds `Kind` and `Kind.String`, `Info`, the decode of
  a reply (`Decode`), the lemmas about it, and the `Client` class, whose `Query` method
  fills the result field by field as the Go code does.

The foreign call `XScreenSaverQueryInfo` is not modelled. `Query` takes what that call
produces as two parameters: the status it returns, and the reply it leaves in the
shared buffer. `Query` writes that reply into the buffer (`ScreenSaverInfo.Fill`). It
then checks the status and decodes from the buffer. The method is proved to return
exactly `Decode` of the reply, or the zero `Info` and the error message when the status
is zero.

A duration is computed as in Go. The C `unsigned long` count is first converted to
`int64`, which keeps the same bits. That is then multiplied by 1,000,000 with int64
wrap-around. The lemmas show what this gives:
- The result is the exact product, wrapped once.
- It is exact exactly when the product fits in int64.
- For a CARD32 count, which is what the protocol delivers, it is exact and non-negative.

Three behaviours of the package are easy to miss:
- An unknown state code is not an error. It leaves `Enabled` and `Active` false and
  both times zero (`DecodeStateOther`).
- An unknown kind code does not decode to an "unknown" kind. It leaves the zero value
  `Blanked` (`DecodeKind`, `DecodeKindOnly`, `DecodedKindIsNamed`). Only `Kind.String`
  of an unnamed Kind value gives "unknown".
- The mutex is taken only around the foreign call. The receiver is a value, so the
  mutex is a copy and the shared buffer is read after the unlock. The model therefore
  states no concurrency guarantee.

## Model

| member | source | states |
|---|---|---|
| `Xss.KindString` | xss/xss.go:52-62 | "blanked", "internal", "external" exactly for Blanked, Internal, External; "unknown" exactly for every other Kind value |
| `Xss.DecodeKind` | xss/xss.go:142-149 | raw kind codes Internal and External give exactly Internal and External; every other code, Blanked's included, gives Blanked |
| `Xss.Decode` | xss/xss.go:126-149 | every decoded Info is coherent: active implies enabled, at most one of countdown and active time is non-zero, the countdown is zero unless enabled and inactive, the active time is zero unless active |
| `GoTypes.Wrap` | xss/xss.go:126 | the int64 result is congruent to its argument modulo 2^64, and equals it when the argument fits in int64 |
| `GoTypes.Int64FromUint64` | xss/xss.go:126 | Go's `int64(x)` of a uint64: the same bits read as two's complement, so x below 2^63 is kept and larger x becomes x - 2^64 |
| `GoTypes.MulInt64` | xss/xss.go:126 | Go's int64 `*`: congruent to the exact product modulo 2^64, and equal to it when the product fits in int64 |
| `Xss.MillisToDuration` | xss/xss.go:126 | `time.Duration(ms) * time.Millisecond` is ms * 1,000,000 nanoseconds modulo 2^64 |
| `Xss.MillisToDurationWraps` | xss/xss.go:126 | converting a millisecond count to a Duration gives the exact product by 1,000,000 wrapped once to int64, for every 64-bit count |
| `Xss.MillisToDurationExact` | xss/xss.go:126 | the conversion is exact if and only if ms * 1,000,000 fits in int64 |
| `Xss.MillisToDurationOfCard32` | xss/xss.go:126 | for a count below 2^32 the duration is exactly ms milliseconds and non-negative |
| `Xss.MillisToDurationExamples` | xss/xss.go:126 | 0, 1, 1000 and 86,400,000 ms convert to 0, 1 ms, 1 s and one day exactly |
| `Xss.DecodeIdleTime` | xss/xss.go:126 | the idle time is the raw idle count in milliseconds whatever the state and kind codes; exact and non-negative for CARD32 counts |
| `Xss.DecodeStateOn` | xss/xss.go:128-132 | state On gives enabled, active, active time = the time field in ms (exact for CARD32) and countdown 0 |
| `Xss.DecodeStateOff` | xss/xss.go:133-137 | state Off gives enabled, not active, countdown = the time field in ms (exact for CARD32) and active time 0 |
| `Xss.DecodeStateOther` | xss/xss.go:127-141 | state Disabled, or any code the switch does not match, gives not enabled, not active, and both times 0, with no error |
| `Xss.DecodeKindOnly` | xss/xss.go:142-149 | the kind code changes only the kind field of the result; an unmatched code gives Blanked |
| `Xss.DecodedKindIsNamed` | xss/xss.go:42-62 | a decoded kind never prints as "unknown" |
| `Xss.DecodeRange` | xss/xss.go:126-149 | an Info is the decoding of some well-formed reply if and only if it is coherent, its kind is named, and each duration is a whole, non-negative number of milliseconds below 2^32 ms |
| `Xss.DecodeInjective` | xss/xss.go:126-149 | two well-formed replies that decode to the same Info are equal; well-formedness includes the assumption that the server sends a zero time field while the saver is disabled |
| `Xss.DecodeDiscardsTime` | xss/xss.go:127-141 | for state Disabled or any unmatched state code, every value of the time field decodes to the same Info: the field is discarded |
| `XScreenSaver.ScreenSaverInfo.Fill` | xss/xss.go:120 | the foreign call overwrites the shared buffer in place with its reply |
| `Xss.Client.constructor` | xss/xss.go:101-104 | a client holds the open display and the allocated buffer |
| `Xss.Client.Query` | xss/xss.go:112-151 | needs a client with a display (the Go code panics otherwise); leaves the reply in the shared buffer; a zero status gives the zero Info and the error "Error querying XSS." without decoding; otherwise no error and exactly `Decode` of the reply; the result is always coherent; the client's own fields do not change |

## Left out

- `XOpenDisplay`, `XScreenSaverQueryExtension`, `XScreenSaverAllocInfo`, `XScreenSaverQueryInfo` and `XFree` are C calls. They become parameters: the display and buffer objects passed to the `Client` constructor, and the status and reply passed to `Query`.
- `NewClient` and its error order are not modelled: a display open failure, then a missing extension (xss/xss.go:89-100). This is only I/O sequencing with plain string errors. The `Client` constructor covers only the struct it builds at the end.
- The finalizer that frees the buffer (xss/xss.go:105-107) is left out, because it runs at a time chosen by the garbage collector.
- The mutex (xss/xss.go:84, 117-121) and every concurrency claim are left out. The method is sequential in the model.
- The panic of `Query` on a client whose display is nil (xss/xss.go:113-115) is the precondition `disp != null`. The model does not produce a panic value. The buffer pointer is required non-nil too, as the C call dereferences it.
- The contents of a freshly allocated buffer are unspecified, as `XScreenSaverAllocInfo` leaves them.
- The `window` and `eventMask` fields of `XScreenSaverInfo` are not modelled, because the package never reads them.
- cmd/xss-query/main.go and xss/doc_test.go are not modelled. They only print the fields, and the example asserts no output.
- Go's `int`, and so `Kind`, is taken to be 64 bits, and C `unsigned long` is taken to be 64 bits (LP64).
