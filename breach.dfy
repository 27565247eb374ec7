/**
 * The text side of the Have I Been Pwned "Pwned Passwords" range lookup
 * that both password pages run: the SHA-1 digest (FIPS 180-4) written as
 * upper-case hex, its five-character prefix sent to the range endpoint, and
 * the scan of the `SUFFIX:COUNT` lines that come back.
 */
module Breach {
  import opened Common
  import opened Text
  import opened Hex

  /** `b.toString(16)`: one or two lower-case digits, without leading zeros. */
  function ToString16(b: Byte): (s: string)
    ensures 1 <= |s| <= 2
  {
    if b < 16 then [LowerDigit(b)] else [LowerDigit(b / 16), LowerDigit(b % 16)]
  }

  /** `s.padStart(2, '0')`. */
  function PadStart2(s: string): (r: string)
    ensures |s| < 2 ==> |r| == 2 && r[2 - |s|..] == s && forall k :: 0 <= k < 2 - |s| ==> r[k] == '0'
    ensures |s| >= 2 ==> r == s
  {
    if |s| >= 2 then s else seq(2 - |s|, _ => '0') + s
  }

  /** The digits the page writes for one byte are the two-digit hex of that byte. */
  lemma PaddedByteIsHex(b: Byte)
    ensures PadStart2(ToString16(b)) == ByteToHex(b)
  {
    if b < 16 {
      assert b / 16 == 0 && b % 16 == b;
    }
  }

  /** `hashArray.map(b => b.toString(16).padStart(2, '0')).join('')`. */
  function JoinedByteHex(d: seq<Byte>): string
  {
    if d == [] then "" else PadStart2(ToString16(d[0])) + JoinedByteHex(d[1..])
  }

  /** The digest text: the joined byte digits, upper-cased. */
  function DigestHex(d: seq<Byte>): string
  {
    UpperAscii(JoinedByteHex(d))
  }

  lemma {:induction false} JoinedByteHexIsEncode(d: seq<Byte>)
    ensures JoinedByteHex(d) == Encode(d)
  {
    if d != [] {
      PaddedByteIsHex(d[0]);
      JoinedByteHexIsEncode(d[1..]);
    }
  }

  /** Upper-casing keeps the values of hex digits, so decoding still reads them the same. */
  lemma {:induction false} DecodeUpper(s: string)
    requires |s| % 2 == 0
    requires forall i :: 0 <= i < |s| ==> IsLowerHexDigit(s[i])
    ensures Decode(UpperAscii(s)) == Decode(s)
    decreases |s|
  {
    if |s| >= 2 {
      var u := UpperAscii(s);
      UpperAsciiHex(s);
      assert UpperAscii(s[2..]) == u[2..] by {
        UpperAsciiDrop(s, 2);
      }
      DecodeUpper(s[2..]);
    }
  }

  lemma {:induction false} UpperAsciiDrop(s: string, n: nat)
    requires n <= |s|
    ensures UpperAscii(s[n..]) == UpperAscii(s)[n..]
    decreases n
  {
    if n > 0 {
      assert s[n..] == s[1..][n - 1..];
      UpperAsciiDrop(s[1..], n - 1);
    }
  }

  /**
   * The digest text is two upper-case hex digits per byte, and reading it
   * back as hex gives the digest again.
   */
  lemma DigestHexSpec(d: seq<Byte>)
    ensures |DigestHex(d)| == 2 * |d|
    ensures forall i :: 0 <= i < |DigestHex(d)| ==> IsUpperHexDigit(DigestHex(d)[i])
    ensures Decode(DigestHex(d)) == d
  {
    JoinedByteHexIsEncode(d);
    UpperAsciiHex(Encode(d));
    DecodeUpper(Encode(d));
    DecodeEncode(d);
  }

  /** How many characters go to the range endpoint. */
  const PREFIX_LENGTH := 5

  /** `hashHex.substring(0, 5)`, clamped as `substring` clamps. */
  function Prefix(h: string): (p: string)
    ensures |p| == if |h| < PREFIX_LENGTH then |h| else PREFIX_LENGTH
    ensures p <= h
  {
    if |h| < PREFIX_LENGTH then h else h[..PREFIX_LENGTH]
  }

  /** `hashHex.substring(5)`. */
  function Suffix(h: string): (s: string)
    ensures |s| == if |h| < PREFIX_LENGTH then 0 else |h| - PREFIX_LENGTH
  {
    if |h| < PREFIX_LENGTH then "" else h[PREFIX_LENGTH..]
  }

  /** The prefix sent and the suffix looked for together make up the digest text. */
  lemma PrefixSuffix(h: string)
    ensures Prefix(h) + Suffix(h) == h
  {
  }

  /** A SHA-1 digest is 20 bytes: the query carries 5 hex digits and the suffix has 35. */
  lemma Sha1Split(d: seq<Byte>)
    requires |d| == 20
    ensures |Prefix(DigestHex(d))| == 5 && |Suffix(DigestHex(d))| == 35
    ensures Prefix(DigestHex(d)) + Suffix(DigestHex(d)) == DigestHex(d)
  {
    DigestHexSpec(d);
  }

  /** Whether `c` is a digit in base `radix` (10 or 16), in either case. */
  predicate IsRadixDigit(c: char, radix: nat)
  {
    if radix == 16 then IsHexDigit(c) else IsDecimalDigit(c)
  }

  function RadixDigitValue(c: char, radix: nat): (v: nat)
    requires IsRadixDigit(c, radix)
    ensures v < (if radix == 16 then 16 else 10)
  {
    if radix == 16 then DigitValue(c) else c as int - '0' as int
  }

  /** The length of the longest run of `radix` digits at the start of `s`. */
  function DigitRun(s: string, radix: nat): (n: nat)
    ensures n <= |s|
    ensures forall k :: 0 <= k < n ==> IsRadixDigit(s[k], radix)
    ensures n < |s| ==> !IsRadixDigit(s[n], radix)
  {
    if s != [] && IsRadixDigit(s[0], radix) then 1 + DigitRun(s[1..], radix) else 0
  }

  /** The value of a run of digits, most significant first. */
  function DigitsValue(s: string, radix: nat): nat
    requires forall k :: 0 <= k < |s| ==> IsRadixDigit(s[k], radix)
  {
    if s == [] then 0
    else DigitsValue(s[..|s| - 1], radix) * (if radix == 16 then 16 else 10) + RadixDigitValue(s[|s| - 1], radix)
  }

  /** The value of the longest run of `radix` digits at the start of `v`; `None` when there is none. */
  function LeadingDigitsValue(v: string, radix: nat): (r: Option<nat>)
    ensures r.None? <==> DigitRun(v, radix) == 0
  {
    var n := DigitRun(v, radix);
    if n == 0 then None
    else
      assert forall k :: 0 <= k < n ==> v[..n][k] == v[k];
      Some(DigitsValue(v[..n], radix))
  }

  /**
   * `parseInt(s)` with no radix: leading white space is skipped, a sign is
   * read, a `0x` or `0X` prefix switches to base 16, and the longest run of
   * digits that follows is the value. No digits at all gives `NaN`, here
   * `None`. `parseInt(undefined)` reads the text "undefined" and is `NaN` too.
   */
  function ParseInt(s: string): (r: Option<int>)
  {
    var t := TrimStart(s);
    var sign := if |t| > 0 && t[0] == '-' then -1 else 1;
    var u := if |t| > 0 && (t[0] == '-' || t[0] == '+') then t[1..] else t;
    var hex := |u| >= 2 && u[0] == '0' && (u[1] == 'x' || u[1] == 'X');
    var radix := if hex then 16 else 10;
    var v := if hex then u[2..] else u;
    match LeadingDigitsValue(v, radix)
    case None => None
    case Some(m) => Some(sign * m)
  }

  lemma {:induction false} DecimalValue(n: nat)
    ensures DigitsValue(Decimal(n), 10) == n
  {
    if n >= 10 {
      var s := Decimal(n);
      assert s[..|s| - 1] == Decimal(n / 10);
      DecimalValue(n / 10);
    }
  }

  lemma {:induction false} DigitRunAll(d: string)
    requires forall k :: 0 <= k < |d| ==> IsDecimalDigit(d[k])
    ensures DigitRun(d, 10) == |d|
    decreases |d|
  {
    if d != [] {
      DigitRunAll(d[1..]);
    }
  }

  /** Decimal digits without a leading `0x` are read as one decimal number. */
  lemma ParseDigits(s: string)
    requires |s| >= 1 && forall k :: 0 <= k < |s| ==> IsDecimalDigit(s[k])
    requires |s| >= 2 ==> s[0] != '0'
    ensures ParseInt(s) == Some(DigitsValue(s, 10))
  {
    assert !IsJsSpace(s[0]);
    assert TrimStart(s) == s;
    assert !(s[0] == '-' || s[0] == '+');
    assert !(|s| >= 2 && s[0] == '0');
    LeadingDigitsAll(s);
  }

  /** When the whole text is decimal digits, the leading run is all of it. */
  lemma LeadingDigitsAll(d: string)
    requires |d| >= 1 && forall k :: 0 <= k < |d| ==> IsDecimalDigit(d[k])
    ensures LeadingDigitsValue(d, 10) == Some(DigitsValue(d, 10))
  {
    DigitRunAll(d);
    assert d[..|d|] == d;
  }

  /** Reading back the decimal text of a count gives the count. */
  lemma ParseDecimal(n: nat)
    ensures ParseInt(Decimal(n)) == Some(n)
  {
    ParseDigits(Decimal(n));
    DecimalValue(n);
  }

  /** The separator between response lines. */
  const CRLF := "\r\n"

  /** `const [hash, count] = line.split(':')`: the text before the first colon. */
  function LineHash(line: string): string
  {
    Split(line, ":")[0]
  }

  /** The text between the first and second colons, if the line has a colon. */
  function LineCount(line: string): Option<string>
  {
    var parts := Split(line, ":");
    if |parts| >= 2 then Some(parts[1]) else None
  }

  /** `parseInt(count)`. */
  function CountValue(count: Option<string>): Option<int>
  {
    match count
    case None => None
    case Some(c) => ParseInt(c)
  }

  /** A record line `SUFFIX:COUNT` as the range endpoint writes it is read back as that suffix and that count. */
  lemma RecordLine(suffix: string, n: nat)
    requires ':' !in suffix
    ensures LineHash(suffix + ":" + Decimal(n)) == suffix
    ensures CountValue(LineCount(suffix + ":" + Decimal(n))) == Some(n)
  {
    var d := Decimal(n);
    SplitAfter(suffix, ':', d);
    assert ':' !in d by {
      forall k | 0 <= k < |d| ensures d[k] != ':' { assert IsDecimalDigit(d[k]); }
    }
    SplitWithout(d, ':');
    ParseDecimal(n);
  }

  /**
   * What the page shows about a leak. `NoStatus` is the initial `null`;
   * `Leaked` carries `parseInt(count)`, where `None` is `NaN`; `Safe` is
   * `{ leaked: false, count: 0 }`; `CheckFailed` is `{ error }`.
   */
  datatype LeakStatus = NoStatus | Leaked(count: Option<int>) | Safe | CheckFailed(error: string)

  const CHECK_FAILED := "Could not check breach database"

  /** The status the scan reaches over the response lines: the count of the first matching line, else safe. */
  function RangeStatus(lines: seq<string>, suffix: string): (status: LeakStatus)
  {
    if lines == [] then Safe
    else if LineHash(lines[0]) == suffix then Leaked(CountValue(LineCount(lines[0])))
    else RangeStatus(lines[1..], suffix)
  }

  /** The scan reports safe exactly when no line's hash equals the suffix, and a leak otherwise. */
  lemma {:induction false} RangeStatusSafe(lines: seq<string>, suffix: string)
    ensures RangeStatus(lines, suffix).Safe? || RangeStatus(lines, suffix).Leaked?
    ensures RangeStatus(lines, suffix).Safe? <==> forall j :: 0 <= j < |lines| ==> LineHash(lines[j]) != suffix
  {
    if lines != [] && LineHash(lines[0]) != suffix {
      var tail := lines[1..];
      RangeStatusSafe(tail, suffix);
      forall j | 0 < j < |lines|
        ensures lines[j] == tail[j - 1]
      {
      }
    }
  }

  /** Line `j` is the first whose hash equals the suffix. */
  ghost predicate FirstMatch(lines: seq<string>, suffix: string, j: int)
  {
    && 0 <= j < |lines| && LineHash(lines[j]) == suffix
    && forall k :: 0 <= k < j ==> LineHash(lines[k]) != suffix
  }

  /** A leak the scan reports is the count of the first line whose hash equals the suffix. */
  lemma {:induction false} RangeStatusLeaked(lines: seq<string>, suffix: string)
    ensures RangeStatus(lines, suffix).Leaked? ==>
      exists j :: FirstMatch(lines, suffix, j) && RangeStatus(lines, suffix).count == CountValue(LineCount(lines[j]))
  {
    if lines == [] {
    } else if LineHash(lines[0]) == suffix {
      assert RangeStatus(lines, suffix).count == CountValue(LineCount(lines[0]));
      assert FirstMatch(lines, suffix, 0);
    } else {
      var tail := lines[1..];
      RangeStatusLeaked(tail, suffix);
      if RangeStatus(tail, suffix).Leaked? {
        var j :| FirstMatch(tail, suffix, j) && RangeStatus(tail, suffix).count == CountValue(LineCount(tail[j]));
        assert lines[j + 1] == tail[j];
        forall k | 0 <= k < j + 1
          ensures LineHash(lines[k]) != suffix
        {
          if k > 0 {
            assert lines[k] == tail[k - 1];
          }
        }
        assert FirstMatch(lines, suffix, j + 1);
      }
    }
  }

  /**
   * The scan finds a leak exactly when some line's hash equals the suffix, and
   * then reports the count of the first such line.
   */
  lemma RangeStatusSpec(lines: seq<string>, suffix: string)
    ensures RangeStatus(lines, suffix).Safe? || RangeStatus(lines, suffix).Leaked?
    ensures RangeStatus(lines, suffix).Safe? <==> forall j :: 0 <= j < |lines| ==> LineHash(lines[j]) != suffix
    ensures RangeStatus(lines, suffix).Leaked? ==>
      exists j :: 0 <= j < |lines| && LineHash(lines[j]) == suffix
        && (forall k :: 0 <= k < j ==> LineHash(lines[k]) != suffix)
        && RangeStatus(lines, suffix).count == CountValue(LineCount(lines[j]))
  {
    RangeStatusSafe(lines, suffix);
    RangeStatusLeaked(lines, suffix);
    if RangeStatus(lines, suffix).Leaked? {
      var j :| FirstMatch(lines, suffix, j) && RangeStatus(lines, suffix).count == CountValue(LineCount(lines[j]));
    }
  }

  /**
   * The `for ... of` loop over `text.split('\r\n')` with its `isLeaked` flag
   * and `break`: the first line whose hash is the suffix settles a leak, and
   * a scan that finds none reports safe.
   */
  method ScanRange(text: string, suffix: string) returns (status: LeakStatus)
    ensures status == RangeStatus(Split(text, CRLF), suffix)
  {
    var lines := Split(text, CRLF);
    var isLeaked := false;
    status := NoStatus;
    var i := 0;
    while i < |lines|
      invariant 0 <= i <= |lines|
      invariant isLeaked ==> status == RangeStatus(lines, suffix)
      invariant !isLeaked ==> RangeStatus(lines, suffix) == RangeStatus(lines[i..], suffix)
    {
      var line := lines[i];
      var parts := Split(line, ":");
      var hash := parts[0];
      var count := if |parts| >= 2 then Some(parts[1]) else None;
      assert lines[i..][0] == line;
      if hash == suffix {
        isLeaked := true;
        status := Leaked(CountValue(count));
        break;
      }
      assert lines[i..][1..] == lines[i + 1..];
      i := i + 1;
    }
    if !isLeaked {
      status := Safe;
    }
  }

  /**
   * What `fetch` resolves to, as far as the check can see it: the HTTP
   * status code and the body `response.text()` reads.
   */
  datatype Reply = Reply(status: int, text: string)

  /** `response.ok`: a status in the 200 range. */
  predicate IsOk(reply: Reply)
  {
    200 <= reply.status <= 299
  }

  /**
   * The status a completed check leaves: an empty password clears it without
   * a query; a failed digest, a failed request or response read reports the
   * error; otherwise the scan of the response body decides, whatever the
   * HTTP status of the response.
   */
  function CheckStatus(pwd: string, sha1: string -> Option<seq<Byte>>, fetchRange: string -> Option<Reply>): (status: LeakStatus)
    ensures pwd == "" <==> status == NoStatus
    ensures status.CheckFailed? <==>
      pwd != "" && (sha1(pwd).None? || fetchRange(Prefix(DigestHex(sha1(pwd).value))).None?)
    ensures status.CheckFailed? ==> status.error == CHECK_FAILED
    ensures pwd != "" && sha1(pwd).Some? && fetchRange(Prefix(DigestHex(sha1(pwd).value))).Some? ==>
      var hashHex := DigestHex(sha1(pwd).value);
      status == RangeStatus(Split(fetchRange(Prefix(hashHex)).value.text, CRLF), Suffix(hashHex))
  {
    if pwd == "" then NoStatus
    else
      match sha1(pwd)
      case None => CheckFailed(CHECK_FAILED)
      case Some(digest) =>
        var hashHex := DigestHex(digest);
        match fetchRange(Prefix(hashHex))
        case None => CheckFailed(CHECK_FAILED)
        case Some(reply) =>
          RangeStatusSpec(Split(reply.text, CRLF), Suffix(hashHex));
          RangeStatus(Split(reply.text, CRLF), Suffix(hashHex))
  }

  /** The range queries a check sends: none for an empty password or a failed digest, else the digest prefix. */
  function CheckQueries(pwd: string, sha1: string -> Option<seq<Byte>>): (queries: seq<string>)
    ensures |queries| == if pwd == "" || sha1(pwd).None? then 0 else 1
    ensures |queries| == 1 ==> queries[0] == Prefix(DigestHex(sha1(pwd).value))
  {
    if pwd == "" then []
    else
      match sha1(pwd)
      case None => []
      case Some(digest) => [Prefix(DigestHex(digest))]
  }

  /**
   * The range endpoint answering with an error (a rate limit, say) and a body
   * with no record line is read as "not leaked": nothing looks at
   * `response.ok`, and no line of the body matches the suffix.
   */
  lemma ErrorReplyReadAsSafe(pwd: string, sha1: string -> Option<seq<Byte>>, fetchRange: string -> Option<Reply>)
    requires pwd != "" && sha1(pwd).Some? && |sha1(pwd).value| == 20
    requires fetchRange(Prefix(DigestHex(sha1(pwd).value))) == Some(Reply(429, ""))
    ensures CheckStatus(pwd, sha1, fetchRange) == Safe
  {
    var hashHex := DigestHex(sha1(pwd).value);
    Sha1Split(sha1(pwd).value);
    var lines := Split("", CRLF);
    assert lines == [""];
    assert Split("", ":") == [""];
    assert LineHash(lines[0]) != Suffix(hashHex);
    RangeStatusSafe(lines, Suffix(hashHex));
  }

  /**
   * The check with the `ok` test: a response that is not `ok` is an error
   * like a failed request, and its body is never read as a verdict.
   */
  function CheckedStatus(pwd: string, sha1: string -> Option<seq<Byte>>, fetchRange: string -> Option<Reply>): (status: LeakStatus)
    ensures pwd == "" <==> status == NoStatus
    ensures status.CheckFailed? ==> status.error == CHECK_FAILED
  {
    if pwd == "" then NoStatus
    else
      match sha1(pwd)
      case None => CheckFailed(CHECK_FAILED)
      case Some(digest) =>
        var hashHex := DigestHex(digest);
        match fetchRange(Prefix(hashHex))
        case None => CheckFailed(CHECK_FAILED)
        case Some(reply) =>
          if !IsOk(reply) then CheckFailed(CHECK_FAILED)
          else
            RangeStatusSpec(Split(reply.text, CRLF), Suffix(hashHex));
            RangeStatus(Split(reply.text, CRLF), Suffix(hashHex))
  }

  /**
   * With the `ok` check, an error response always reports the error, and a
   * successful one gives the verdict the check as written gives.
   */
  lemma CheckedStatusSpec(pwd: string, sha1: string -> Option<seq<Byte>>, fetchRange: string -> Option<Reply>)
    requires pwd != "" && sha1(pwd).Some?
    ensures var reply := fetchRange(Prefix(DigestHex(sha1(pwd).value)));
      && (reply.Some? && !IsOk(reply.value) ==> CheckedStatus(pwd, sha1, fetchRange) == CheckFailed(CHECK_FAILED))
      && (reply.None? || IsOk(reply.value) ==> CheckedStatus(pwd, sha1, fetchRange) == CheckStatus(pwd, sha1, fetchRange))
  {
  }

  /**
   * The breach indicator of a password page: the leak status, the
   * `isChecking` flag and the range queries sent so far. `sha1` stands for
   * `TextEncoder` followed by `crypto.subtle.digest("SHA-1")`, with `None`
   * when either throws or the digest rejects; `fetchRange` stands for the
   * request to the range endpoint and reading its text, with `None` for a
   * request or read that throws.
   */
  class BreachCheck {
    var status: LeakStatus
    var isChecking: bool
    var queries: seq<string>

    constructor()
      ensures status == NoStatus && !isChecking && queries == []
    {
      status := NoStatus;
      isChecking := false;
      queries := [];
    }

    /** `checkPasswordBreach(pwd)`, run to completion. */
    method CheckPasswordBreach(pwd: string, sha1: string -> Option<seq<Byte>>, fetchRange: string -> Option<Reply>)
      modifies this
      ensures status == CheckStatus(pwd, sha1, fetchRange)
      ensures queries == old(queries) + CheckQueries(pwd, sha1)
      ensures isChecking == (pwd == "" && old(isChecking))
    {
      if pwd == "" {
        status := NoStatus;
        return;
      }
      isChecking := true;
      var hashBuffer := sha1(pwd);
      if hashBuffer.None? {
        status := CheckFailed(CHECK_FAILED);
        isChecking := false;
        return;
      }
      var hashHex := DigestHex(hashBuffer.value);
      var firstFive := Prefix(hashHex);
      var remaining := Suffix(hashHex);
      queries := queries + [firstFive];
      var response := fetchRange(firstFive);
      match response {
        case None =>
          status := CheckFailed(CHECK_FAILED);
        case Some(reply) =>
          status := ScanRange(reply.text, remaining);
      }
      isChecking := false;
    }
  }
}
