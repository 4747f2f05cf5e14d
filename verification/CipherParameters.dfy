/** How a client tells the server its key, nonce and strategies: five segments of an HTTP
    request path. Base64 itself is a library and enters as a pair of functions. */
module CipherParameters {
  import opened Bytes
  import opened Keystreams

  const USIZE_MAX: nat := 0xFFFF_FFFF_FFFF_FFFF

  datatype Base64 = Base64(encode: seq<byte> -> string, decode: string -> Option<seq<byte>>) {
    /** Section 5 of RFC 4648: decoding undoes encoding, and '/' is not in the alphabet. */
    ghost predicate Lawful() {
      forall b :: decode(encode(b)) == Some(b) && '/' !in encode(b)
    }
  }

  // ---- decimal numbers ---------------------------------------------------------------

  predicate IsDigit(c: char) {
    '0' <= c <= '9'
  }

  function DigitValue(c: char): nat
    requires IsDigit(c)
  {
    c as int - '0' as int
  }

  function Decimal(n: nat): (s: string)
    ensures s != "" && forall c :: c in s ==> IsDigit(c)
  {
    var last := ['0' + (n % 10) as char];
    if n < 10 then last else Decimal(n / 10) + last
  }

  function DigitsValue(s: string): nat
    requires forall c :: c in s ==> IsDigit(c)
  {
    if s == "" then 0 else 10 * DigitsValue(s[..|s| - 1]) + DigitValue(s[|s| - 1])
  }

  /** Rust's parser for unsigned integers: an optional '+', then digits, no overflow. */
  function ParseUnsigned(s: string, max: nat): Option<nat> {
    var digits := if |s| > 1 && s[0] == '+' then s[1..] else s;
    if digits != "" && (forall c :: c in digits ==> IsDigit(c)) && DigitsValue(digits) <= max
    then Some(DigitsValue(digits))
    else None
  }

  lemma {:induction false} DecimalRoundTrip(n: nat, max: nat)
    ensures DigitsValue(Decimal(n)) == n
    ensures n <= max ==> ParseUnsigned(Decimal(n), max) == Some(n)
  {
    var s := Decimal(n);
    if n >= 10 {
      DecimalRoundTrip(n / 10, max);
      assert s[..|s| - 1] == Decimal(n / 10);
    } else {
      assert s[..0] == "";
    }
    assert s[0] in s;
  }

  predicate AllDigits(s: string) {
    s != "" && forall c :: c in s ==> '0' <= c <= '9'
  }

  /** A number is digits, or digits behind a plus sign, and must fit. */
  lemma UnsignedExact(s: string, max: nat, n: nat)
    ensures ParseUnsigned(s, max) == Some(n) <==>
            && n <= max
            && (|| (AllDigits(s) && DigitsValue(s) == n)
                || (s != "" && s[0] == '+' && AllDigits(s[1..]) && DigitsValue(s[1..]) == n))
  {
    if s != "" && s[0] == '+' {
      assert s[0] in s && !AllDigits(s);
      assert AllDigits(s[1..]) <==> s[1..] != "" && forall c :: c in s[1..] ==> IsDigit(c);
    }
    assert AllDigits(s) <==> s != "" && forall c :: c in s ==> IsDigit(c);
  }

  /** Digits count from the right: one more digit makes ten times as much and the digit. */
  lemma OneMoreDigit(n: nat, d: nat)
    requires d < 10 && n > 0
    ensures Decimal(d) == [['0', '1', '2', '3', '4', '5', '6', '7', '8', '9'][d]]
    ensures Decimal(10 * n + d) == Decimal(n) + Decimal(d)
  {
  }

  // ---- strategies --------------------------------------------------------------------

  function StrategyText(s: EncryptionStrategy): string {
    match s
    case FirstN(n) => Decimal(n)
    case Always => "a"
    case Never => "n"
  }

  function ParseStrategy(v: string): Result<EncryptionStrategy> {
    match ParseUnsigned(v, USIZE_MAX)
    case Some(n) => if n > 0 then Ok(FirstN(n)) else Err
    case None => if v == "n" then Ok(Never) else if v == "a" then Ok(Always) else Err
  }

  /** Which texts mean which strategy; a count of zero means none. */
  lemma StrategyExact(v: string)
    ensures ParseStrategy(v) == Ok(Always) <==> v == "a"
    ensures ParseStrategy(v) == Ok(Never) <==> v == "n"
    ensures forall n :: ParseStrategy(v) == Ok(FirstN(n)) <==>
              n > 0 && ParseUnsigned(v, 0xFFFF_FFFF_FFFF_FFFF) == Some(n)
  {
    if v == "a" || v == "n" {
      assert v[0] in v && !IsDigit(v[0]);
      assert ParseUnsigned(v, USIZE_MAX) == None;
    }
  }

  /** A strategy a `NonZeroUsize` can express. */
  predicate Expressible(s: EncryptionStrategy) {
    s.FirstN? ==> 0 < s.n <= USIZE_MAX
  }

  lemma StrategyRoundTrip(s: EncryptionStrategy)
    requires Expressible(s)
    ensures ParseStrategy(StrategyText(s)) == Ok(s) && '/' !in StrategyText(s)
  {
    if s.FirstN? {
      DecimalRoundTrip(s.n, USIZE_MAX);
    } else {
      var text := StrategyText(s);
      assert text[0] in text && !IsDigit(text[0]);
    }
  }

  // ---- the path ----------------------------------------------------------------------

  function Split(s: string): (r: seq<string>)
    ensures |r| > 0
  {
    if s == "" then [""]
    else
      var r := Split(s[1..]);
      if s[0] == '/' then [""] + r else [[s[0]] + r[0]] + r[1..]
  }

  lemma {:induction false} SplitSegment(a: string, rest: string)
    requires '/' !in a
    ensures Split(a) == [a]
    ensures Split(a + "/" + rest) == [a] + Split(rest)
  {
    if a == "" {
      assert ("" + "/" + rest)[1..] == rest;
    } else {
      SplitSegment(a[1..], rest);
      assert [a[0]] + a[1..] == a && a[0] in a;
      assert (a + "/" + rest)[1..] == a[1..] + "/" + rest;
    }
  }

  datatype CipherParams = CipherParams(key: seq<byte>, iv: seq<byte>, sendStrategy: EncryptionStrategy,
                                       recvStrategy: EncryptionStrategy, cipherType: byte)

  /** The segments, each one led by a slash. */
  function Path(segments: seq<string>): string {
    if segments == [] then "" else "/" + segments[0] + Path(segments[1..])
  }

  function Segments(b64: Base64, p: CipherParams): seq<string> {
    [b64.encode(p.key), b64.encode(p.iv), StrategyText(p.sendStrategy), StrategyText(p.recvStrategy),
     Decimal(p.cipherType as nat)]
  }

  function ParamsText(b64: Base64, p: CipherParams): string {
    Path(Segments(b64, p))
  }

  lemma {:induction false} SplitPath(a: string, segments: seq<string>)
    requires '/' !in a && forall i :: 0 <= i < |segments| ==> '/' !in segments[i]
    ensures Split(a + Path(segments)) == [a] + segments
    decreases segments
  {
    SplitSegment(a, "");
    if segments == [] {
      assert a + "" == a;
    } else {
      SplitPath(segments[0], segments[1..]);
      SplitSegment(a, segments[0] + Path(segments[1..]));
      assert a + Path(segments) == a + "/" + (segments[0] + Path(segments[1..]));
    }
  }

  /** Whatever stands before the first '/' and after the fifth segment is ignored. */
  function ParseParams(b64: Base64, s: string): Result<CipherParams> {
    var ss := Split(s);
    if |ss| < 6 then Err
    else
      match (b64.decode(ss[1]), b64.decode(ss[2]), ParseStrategy(ss[3]), ParseStrategy(ss[4]),
             ParseUnsigned(ss[5], 255))
      case (Some(key), Some(iv), Ok(send), Ok(recv), Some(t)) =>
        assert t <= 255;
        Ok(CipherParams(key, iv, send, recv, t as byte))
      case _ => Err
  }

  /** The path in full; "a" and "n" stand for always and never, a number for the first bytes. */
  lemma PathText(b64: Base64, p: CipherParams)
    ensures ParamsText(b64, p) ==
            "/" + b64.encode(p.key) + ("/" + b64.encode(p.iv) + ("/" + StrategyText(p.sendStrategy) +
            ("/" + StrategyText(p.recvStrategy) + ("/" + Decimal(p.cipherType as nat)))))
    ensures StrategyText(Always) == "a" && StrategyText(Never) == "n"
    ensures forall n :: StrategyText(FirstN(n)) == Decimal(n)
  {
    FiveSegments(b64.encode(p.key), b64.encode(p.iv), StrategyText(p.sendStrategy),
                 StrategyText(p.recvStrategy), Decimal(p.cipherType as nat));
  }

  lemma FiveSegments(a: string, b: string, c: string, d: string, e: string)
    ensures Path([a, b, c, d, e]) == "/" + a + ("/" + b + ("/" + c + ("/" + d + ("/" + e))))
  {
    assert [e][1..] == [] && Path([e]) == "/" + e;
    assert [d, e][1..] == [e] && [c, d, e][1..] == [d, e];
    assert [b, c, d, e][1..] == [c, d, e] && [a, b, c, d, e][1..] == [b, c, d, e];
    assert Path([c, d, e]) == "/" + c + ("/" + d + ("/" + e));
  }

  /** What stands before the first slash, and segments after the fifth, are ignored. */
  lemma PathExtras(b64: Base64, p: CipherParams, front: string, segments: seq<string>)
    requires '/' !in front && forall i :: 0 <= i < |segments| ==> '/' !in segments[i]
    requires b64.Lawful() && Expressible(p.sendStrategy) && Expressible(p.recvStrategy)
    ensures ParseParams(b64, front + Path(Segments(b64, p) + segments)) == Ok(p)
  {
    var ss := Segments(b64, p);
    SegmentsParse(b64, p);
    forall i | 0 <= i < |ss + segments| ensures '/' !in (ss + segments)[i] {
      assert i < 5 ==> (ss + segments)[i] == ss[i];
    }
    SplitPath(front, ss + segments);
    FiveOfMany(b64, p, [front] + (ss + segments), front + Path(ss + segments));
  }

  /** The five segments of the parameters, each on its own. */
  lemma SegmentsParse(b64: Base64, p: CipherParams)
    requires b64.Lawful() && Expressible(p.sendStrategy) && Expressible(p.recvStrategy)
    ensures var ss := Segments(b64, p);
      && (forall i :: 0 <= i < 5 ==> '/' !in ss[i])
      && b64.decode(ss[0]) == Some(p.key) && b64.decode(ss[1]) == Some(p.iv)
      && ParseStrategy(ss[2]) == Ok(p.sendStrategy) && ParseStrategy(ss[3]) == Ok(p.recvStrategy)
      && ParseUnsigned(ss[4], 255) == Some(p.cipherType as nat)
  {
    StrategyRoundTrip(p.sendStrategy);
    StrategyRoundTrip(p.recvStrategy);
    DecimalRoundTrip(p.cipherType as nat, 255);
  }

  lemma FiveOfMany(b64: Base64, p: CipherParams, parts: seq<string>, path: string)
    requires Split(path) == parts && |parts| >= 6
    requires b64.decode(parts[1]) == Some(p.key) && b64.decode(parts[2]) == Some(p.iv)
    requires ParseStrategy(parts[3]) == Ok(p.sendStrategy) && ParseStrategy(parts[4]) == Ok(p.recvStrategy)
    requires ParseUnsigned(parts[5], 255) == Some(p.cipherType as nat)
    ensures ParseParams(b64, path) == Ok(p)
  {
  }

  /** With fewer than five segments there are no parameters. */
  lemma ShortPath(b64: Base64, front: string, segments: seq<string>)
    requires '/' !in front && forall i :: 0 <= i < |segments| ==> '/' !in segments[i]
    requires |segments| < 5
    ensures ParseParams(b64, front + Path(segments)).Err?
  {
    SplitPath(front, segments);
  }

  lemma ParamsRoundTrip(b64: Base64, p: CipherParams)
    requires b64.Lawful() && Expressible(p.sendStrategy) && Expressible(p.recvStrategy)
    ensures ParseParams(b64, ParamsText(b64, p)) == Ok(p)
  {
    PathExtras(b64, p, "", []);
    assert "" + Path(Segments(b64, p)) == Path(Segments(b64, p));
    assert Segments(b64, p) + [] == Segments(b64, p);
  }
}
