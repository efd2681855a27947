/** The Retry-After header parser and the one-retry policy for carrier rejects. Durations are milliseconds. */
module CarrierRetry {
  import opened Prelude

  // ---- parse_retry_after ------------------------------------------------------

  /** The Unicode White_Space characters, which `trim_start` removes. */
  predicate IsWhitespace(c: char) {
    var n := c as int;
    || 0x09 <= n <= 0x0D || n == 0x20 || n == 0x85 || n == 0xA0 || n == 0x1680
    || 0x2000 <= n <= 0x200A || n == 0x2028 || n == 0x2029 || n == 0x202F || n == 0x205F || n == 0x3000
  }

  predicate IsDigit(c: char) {
    '0' <= c <= '9'
  }

  function DigitValue(c: char): nat
    requires IsDigit(c)
  {
    c as int - '0' as int
  }

  function TrimStart(s: string): string {
    if s != [] && IsWhitespace(s[0]) then TrimStart(s[1..]) else s
  }

  function TakeDigits(s: string): (d: string)
    ensures AllDigits(d)
  {
    if s != [] && IsDigit(s[0]) then [s[0]] + TakeDigits(s[1..]) else []
  }

  predicate AllDigits(s: string) {
    forall i :: 0 <= i < |s| ==> IsDigit(s[i])
  }

  /** The number a digit string denotes, most significant digit first. */
  function Value(d: string): nat
    requires AllDigits(d)
  {
    if d == [] then 0 else Value(d[..|d| - 1]) * 10 + DigitValue(d[|d| - 1])
  }

  /** `digits.parse::<u32>().ok()` on a nonempty digit string. */
  function ParseU32(d: string): Option<u32>
    requires AllDigits(d)
  {
    if Value(d) < 0x1_0000_0000 then Some(Value(d)) else None
  }

  function ParseRetryAfter(value: string): Option<u32> {
    var digits := TakeDigits(TrimStart(value));
    if digits == [] then None else ParseU32(digits)
  }

  /** Decimal printing without leading zeros. */
  function Decimal(n: nat): (d: string)
    ensures d != [] && AllDigits(d)
  {
    if n < 10 then [DigitChar(n)] else Decimal(n / 10) + [DigitChar(n % 10)]
  }

  function DigitChar(n: nat): (c: char)
    requires n < 10
    ensures IsDigit(c) && DigitValue(c) == n
  {
    ('0' as int + n) as char
  }

  lemma {:induction false} DecimalValue(n: nat)
    ensures Value(Decimal(n)) == n
  {
    if n >= 10 {
      DecimalValue(n / 10);
      var d := Decimal(n);
      assert d[..|d| - 1] == Decimal(n / 10);
      assert n == n / 10 * 10 + n % 10;
    }
  }

  /** `tail` cannot lengthen the digit run before it. */
  predicate StopsDigits(tail: string) {
    tail == [] || !IsDigit(tail[0])
  }

  lemma {:induction false} TrimsWhitespace(space: string, rest: string)
    requires forall i :: 0 <= i < |space| ==> IsWhitespace(space[i])
    requires rest == [] || !IsWhitespace(rest[0])
    ensures TrimStart(space + rest) == rest
  {
    if space == [] {
      assert space + rest == rest;
    } else {
      assert (space + rest)[1..] == space[1..] + rest;
      TrimsWhitespace(space[1..], rest);
    }
  }

  lemma {:induction false} TakesDigits(digits: string, tail: string)
    requires AllDigits(digits) && StopsDigits(tail)
    ensures TakeDigits(digits + tail) == digits
  {
    if digits == [] {
      assert digits + tail == tail;
    } else {
      assert (digits + tail)[1..] == digits[1..] + tail;
      TakesDigits(digits[1..], tail);
    }
  }

  /** Whitespace, a digit run, anything else: the answer is the value of the run if it fits 32 bits,
      and `None` if it does not or if there is no digit. */
  lemma ParsesDigitRun(space: string, digits: string, tail: string)
    requires forall i :: 0 <= i < |space| ==> IsWhitespace(space[i])
    requires AllDigits(digits) && StopsDigits(tail)
    requires digits == [] ==> tail == [] || !IsWhitespace(tail[0])
    ensures ParseRetryAfter(space + digits + tail)
         == if digits == [] || Value(digits) >= 0x1_0000_0000 then None else Some(Value(digits))
  {
    var rest := digits + tail;
    if digits != [] {
      assert rest[0] == digits[0];
      DigitIsNoSpace(digits[0]);
    }
    TrimsWhitespace(space, rest);
    assert space + digits + tail == space + rest;
    TakesDigits(digits, tail);
  }

  lemma DigitIsNoSpace(c: char)
    requires IsDigit(c)
    ensures !IsWhitespace(c)
  {
  }

  /** The parser inverts decimal printing for every 32-bit number and rejects every larger one. */
  lemma ParseInvertsPrinting(space: string, n: nat, tail: string)
    requires forall i :: 0 <= i < |space| ==> IsWhitespace(space[i])
    requires StopsDigits(tail)
    ensures ParseRetryAfter(space + Decimal(n) + tail) == if n < 0x1_0000_0000 then Some(n) else None
  {
    DecimalValue(n);
    ParsesDigitRun(space, Decimal(n), tail);
  }

  /** The header is read as a decimal number: a single digit counts for itself, and one more digit
      makes ten times the number and that digit. A number past 32 bits stays rejected. */
  lemma ReadsDecimal(space: string, digits: string, c: char, tail: string)
    requires forall i :: 0 <= i < |space| ==> IsWhitespace(space[i])
    requires '0' <= c <= '9' && forall i :: 0 <= i < |digits| ==> '0' <= digits[i] <= '9'
    requires StopsDigits(tail)
    ensures var before, after := ParseRetryAfter(space + digits), ParseRetryAfter(space + (digits + [c]) + tail);
            var n := if before.Some? then before.value * 10 + (c as int - '0' as int) else c as int - '0' as int;
            after == if (digits != [] && before.None?) || n >= 0x1_0000_0000 then None else Some(n)
  {
    hide ParseRetryAfter;
    ParsesDigitRun(space, digits, "");
    assert space + digits + "" == space + digits;
    ParsesDigitRun(space, digits + [c], tail);
    ValueSnoc(digits, c);
    hide *;
  }

  lemma ValueSnoc(digits: string, c: char)
    requires AllDigits(digits) && IsDigit(c)
    ensures Value(digits + [c]) == Value(digits) * 10 + (c as int - '0' as int)
    ensures digits == [] ==> Value(digits) == 0
  {
    assert (digits + [c])[..|digits|] == digits;
  }

  // ---- the retry decision -------------------------------------------------------

  datatype Config = Config(defaultWait: nat, maxWait: nat, jitter: nat)

  datatype NoRetryReason = NotIntermittent | RetryAfterTooLong

  datatype RetryDecision =
    | Retry(wait: u64, headerSecs: Option<u32>)
    | NoRetry(reason: NoRetryReason)

  predicate IsCarrierIntermittentReject(status: u16) {
    status == 500 || status == 486 || status == 503
  }

  /** 64-bit two's complement reading of an integer. */
  function ToI64(n: int): int {
    (n + 0x8000_0000_0000_0000) % 0x1_0000_0000_0000_0000 - 0x8000_0000_0000_0000
  }

  function ToU64(n: int): u64 {
    n % 0x1_0000_0000_0000_0000
  }

  /** One step of a linear congruential generator, seeded by the sub-second part of the clock. */
  function Scramble(nanos: nat): u64 {
    ToU64(nanos * 6364136223846793005 + 1442695040888963407)
  }

  function AmplitudeMs(jitter: nat): nat {
    if jitter < 0x8000_0000_0000_0000 then jitter else 0
  }

  lemma ToU64OfI64(n: nat)
    requires n < 0x1_0000_0000_0000_0000
    ensures ToU64(ToI64(n)) == n
  {
  }

  function RandomJitterOffset(jitter: nat, nanos: nat): int {
    var amp := AmplitudeMs(jitter);
    if amp == 0 then 0
    else
      ToU64OfI64(amp * 2 + 1);
      var range := ToU64(ToI64(amp * 2 + 1));
      ToI64(ToI64(Scramble(nanos) % range) - amp)
  }

  lemma ToI64Small(n: int)
    requires -0x8000_0000_0000_0000 <= n < 0x8000_0000_0000_0000
    ensures ToI64(n) == n
  {
  }

  lemma ToI64Sub(n: int, amp: int)
    ensures ToI64(ToI64(n) - amp) == ToI64(n - amp)
  {
  }

  lemma ScrambleIs(nanos: nat)
    ensures Scramble(nanos) == (nanos * 6364136223846793005 + 1442695040888963407) % 0x1_0000_0000_0000_0000
  {
  }

  /** Whatever the clock reads and whatever the amplitude, the offset is the scrambled reading laid
      around zero within the amplitude, although the intermediate 64-bit arithmetic may wrap. An
      amplitude past 63 bits gives no jitter. */
  lemma JitterWithinAmplitude(jitter: nat, nanos: nat)
    ensures 0 - jitter <= RandomJitterOffset(jitter, nanos) <= jitter
    ensures RandomJitterOffset(jitter, nanos)
         == if jitter >= 0x8000_0000_0000_0000 then 0
            else (nanos * 6364136223846793005 + 1442695040888963407) % 0x1_0000_0000_0000_0000 % (2 * jitter + 1) - jitter
  {
    ScrambleIs(nanos);
    hide ToI64;
    hide ToU64;
    hide Scramble;
    var amp := AmplitudeMs(jitter);
    if amp != 0 {
      var range: int := amp * 2 + 1;
      ToU64OfI64(range);
      var v: int := Scramble(nanos) % range;
      ToI64Sub(v, amp);
      ToI64Small(v - amp);
    }
  }

  /** `apply_jitter`: saturates below at zero; a sum past 64 bits comes out as zero. */
  function ApplyJitter(baseWait: nat, offset: int): u64 {
    var base := if baseWait < 0x1_0000_0000_0000_0000 then baseWait else 0xFFFF_FFFF_FFFF_FFFF;
    var sum := Max(base + offset, 0);
    if sum < 0x1_0000_0000_0000_0000 then sum else 0
  }

  function DecideRetry(status: u16, retryAfter: Option<string>, cfg: Config, offset: int): RetryDecision {
    if !IsCarrierIntermittentReject(status) then NoRetry(NotIntermittent)
    else
      var secs := if retryAfter.Some? then ParseRetryAfter(retryAfter.value) else None;
      if secs.Some? && secs.value * 1000 > cfg.maxWait then NoRetry(RetryAfterTooLong)
      else Retry(ApplyJitter(BaseWait(secs, cfg), offset), secs)
  }

  function BaseWait(secs: Option<u32>, cfg: Config): nat {
    if secs.Some? then secs.value * 1000 else cfg.defaultWait
  }

  /** What the parser makes of the response's header. */
  function HeaderSecs(retryAfter: Option<string>): Option<u32> {
    if retryAfter.Some? then ParseRetryAfter(retryAfter.value) else None
  }

  /** The production path, for every clock reading: a retry happens exactly for 500, 486 and 503
      without an overlong Retry-After. The base is the header value, then at most `maxWait`, or the
      default. The wait is within the jitter of the base whenever base and jitter together fit 64 bits;
      in general exactly when the base fits and the sum does, or a saturated base or a sum that came
      out as zero happens to be near enough. */
  lemma RetryWaitBounds(status: u16, retryAfter: Option<string>, cfg: Config, nanos: nat)
    ensures var offset := RandomJitterOffset(cfg.jitter, nanos);
            var d := DecideRetry(status, retryAfter, cfg, offset);
            var secs := HeaderSecs(retryAfter);
            var base := if secs.Some? then secs.value * 1000 else cfg.defaultWait;
            && (d.Retry? <==> (status == 500 || status == 486 || status == 503) && (secs.Some? ==> base <= cfg.maxWait))
            && (d.Retry? ==> d.headerSecs == secs)
            && (d.Retry? ==> (WithinJitter(d.wait, base, cfg.jitter) <==> JitterKept(base, offset, cfg.jitter)))
            && (base + cfg.jitter < 0x1_0000_0000_0000_0000 ==> JitterKept(base, offset, cfg.jitter))
            && (d.NoRetry? ==> (d.reason == RetryAfterTooLong <==> (status == 500 || status == 486 || status == 503)))
  {
    hide RandomJitterOffset;
    hide ParseRetryAfter;
    JitterWithinAmplitude(cfg.jitter, nanos);
  }

  predicate WithinJitter(wait: nat, base: nat, jitter: nat) {
    Max(0, base - jitter) <= wait <= base + jitter
  }

  /** The base is saturated to 64 bits first; a sum past 64 bits becomes zero. */
  predicate JitterKept(base: nat, offset: int, jitter: nat) {
    var saturated := Min(base, 0xFFFF_FFFF_FFFF_FFFF);
    if saturated + offset < 0x1_0000_0000_0000_0000 then base - saturated <= jitter + offset else base <= jitter
  }

  /** The jittered wait is the plain sum exactly when the sum fits 64 bits and is not negative. */
  lemma JitterExact(base: u64, offset: int)
    ensures ApplyJitter(base, offset) == base + offset <==> 0 <= base + offset < 0x1_0000_0000_0000_0000
  {
  }

  /** The code comments promise that Retry-After is always obeyed. It is obeyed exactly when the
      jitter offset is not negative (a zero header is obeyed by any wait). */
  lemma RetryAfterObeyedIff(status: u16, header: string, cfg: Config, offset: int)
    requires DecideRetry(status, Some(header), cfg, offset).Retry? && ParseRetryAfter(header).Some?
    requires -0x8000_0000_0000_0000 <= offset < 0x8000_0000_0000_0000
    ensures DecideRetry(status, Some(header), cfg, offset).wait >= ParseRetryAfter(header).value * 1000
       <==> offset >= 0 || ParseRetryAfter(header).value == 0
  {
    hide ParseRetryAfter;
  }

  /** A clock reading at which the default jitter is as negative as it can be. */
  lemma LowestJitter()
    ensures RandomJitterOffset(1500, 322) == -1500
  {
    var scrambled := 322 * 6364136223846793005 + 1442695040888963407;
    assert scrambled == 111 * 0x1_0000_0000_0000_0000 + 1034977320158641 * 3001;
    assert ToU64(scrambled) == 1034977320158641 * 3001;
    ToU64OfI64(3001);
    hide ToU64;
    assert ToI64(0) == 0 && ToI64(-1500) == -1500;
    hide ToI64;
  }

  /** With the default policy and a clock that reads 322 ns past the second, a Retry-After of five
      seconds is undercut by a second and a half. */
  lemma RetryAfterUndercut()
    ensures var cfg := Config(8000, 12_000, 1500);
            DecideRetry(503, Some("5"), cfg, RandomJitterOffset(cfg.jitter, 322)) == Retry(3500, Some(5))
  {
    var digits := "5";
    LowestJitter();
    assert Value(digits) == 5 by {
      assert digits[..0] == "";
    }
    ParsesDigitRun("", digits, "");
    assert "" + digits + "" == digits;
    hide RandomJitterOffset;
  }
}
