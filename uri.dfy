/** Percent-decoding as ECMAScript's `decodeURIComponent` performs it
    (section 2.1 of RFC 3986 for the escapes, RFC 3629 for the UTF-8 they
    spell). A string is a sequence of Unicode scalar values; a malformed
    escape, which makes `decodeURIComponent` throw a URIError, is `None`. */
module Uri {
  import opened Wrappers

  function HexValue(c: char): Option<nat> {
    if '0' <= c <= '9' then Some(c as int - '0' as int)
    else if 'a' <= c <= 'f' then Some(c as int - 'a' as int + 10)
    else if 'A' <= c <= 'F' then Some(c as int - 'A' as int + 10)
    else None
  }

  /** The octet spelled by the escape `%XY` at index k of s, if there is one. */
  function EscapedOctet(s: string, k: nat): (r: Option<nat>)
    ensures r.Some? ==> k + 3 <= |s| && s[k] == '%' && r.value < 256
  {
    if k + 3 <= |s| && s[k] == '%' then
      match (HexValue(s[k + 1]), HexValue(s[k + 2]))
      case (Some(hi), Some(lo)) => if hi < 16 && lo < 16 then Some(hi * 16 + lo) else None
      case _ => None
    else None
  }

  predicate IsContinuation(b: nat) {
    0x80 <= b < 0xC0
  }

  /** The number of octets a UTF-8 sequence with leading octet b has; 0 for an
      octet that cannot lead (a continuation octet or 0xF8 and above). */
  function SequenceLength(b: nat): nat {
    if b < 0x80 then 1
    else if b < 0xC2 then 0
    else if b < 0xE0 then 2
    else if b < 0xF0 then 3
    else if b < 0xF5 then 4
    else 0
  }

  /** The scalar value that a UTF-8 sequence of n octets encodes, if the
      sequence is well formed (no overlong form, no surrogate, nothing above
      U+10FFFF). */
  function DecodeOctets(octets: seq<nat>): (r: Option<char>)
  {
    if |octets| == 1 && octets[0] < 0x80 then Some(octets[0] as char)
    else if |octets| == 2 && 0xC2 <= octets[0] < 0xE0 && IsContinuation(octets[1]) then
      Some(((octets[0] - 0xC0) * 64 + (octets[1] - 0x80)) as char)
    else if |octets| == 3 && 0xE0 <= octets[0] < 0xF0
            && IsContinuation(octets[1]) && IsContinuation(octets[2]) then
      var cp := (octets[0] - 0xE0) * 4096 + (octets[1] - 0x80) * 64 + (octets[2] - 0x80);
      if 0x800 <= cp && !(0xD800 <= cp < 0xE000) then Some(cp as char) else None
    else if |octets| == 4 && 0xF0 <= octets[0] < 0xF5
            && IsContinuation(octets[1]) && IsContinuation(octets[2]) && IsContinuation(octets[3]) then
      var cp := (octets[0] - 0xF0) * 0x40000 + (octets[1] - 0x80) * 4096
                + (octets[2] - 0x80) * 64 + (octets[3] - 0x80);
      if 0x10000 <= cp <= 0x10FFFF then Some(cp as char) else None
    else None
  }

  /** The n escapes `%XY%XY...` that start at index k of s, as octets. */
  function EscapedOctets(s: string, k: nat, n: nat): (r: Option<seq<nat>>)
    requires k <= |s|
    ensures r.Some? ==> |r.value| == n && k + 3 * n <= |s|
    decreases n
  {
    if n == 0 then Some([])
    else match EscapedOctet(s, k)
      case None => None
      case Some(b) =>
        match EscapedOctets(s, k + 3, n - 1)
        case None => None
        case Some(rest) => Some([b] + rest)
  }

  /** Decodes the escape sequence at the head of s (which starts with `%`):
      the character it spells and the number of input characters it takes. */
  function DecodeEscape(s: string): (r: Option<(char, nat)>)
    requires |s| > 0 && s[0] == '%'
    ensures r.Some? ==> 3 <= r.value.1 <= |s|
  {
    match EscapedOctet(s, 0)
    case None => None
    case Some(lead) =>
      var n := SequenceLength(lead);
      if n == 0 then None
      else match EscapedOctets(s, 0, n)
        case None => None
        case Some(octets) =>
          match DecodeOctets(octets)
          case None => None
          case Some(c) => Some((c, 3 * n))
  }

  /** `decodeURIComponent(s)`: every escape is decoded (the reserved set is
      empty), every other character is kept. */
  function PercentDecode(s: string): (r: Option<string>)
    ensures r.Some? ==> |r.value| <= |s|
    ensures r.Some? && s != [] ==> r.value != []
    decreases |s|
  {
    if s == [] then Some([])
    else if s[0] != '%' then
      match PercentDecode(s[1..])
      case None => None
      case Some(t) => Some([s[0]] + t)
    else
      match DecodeEscape(s)
      case None => None
      case Some((c, n)) =>
        match PercentDecode(s[n..])
        case None => None
        case Some(t) => Some([c] + t)
  }

  /** A string without `%` decodes to itself. */
  lemma {:induction false} DecodeWithoutEscapes(s: string)
    requires '%' !in s
    ensures PercentDecode(s) == Some(s)
  {
    if s != [] {
      assert s[0] in s;
      assert forall c | c in s[1..] :: c in s;
      DecodeWithoutEscapes(s[1..]);
      assert [s[0]] + s[1..] == s;
    }
  }

  /** The upper-case hexadecimal digit for d. */
  function HexDigit(d: nat): (c: char)
    requires d < 16
    ensures HexValue(c) == Some(d)
  {
    if d < 10 then ('0' as int + d) as char else ('A' as int + d - 10) as char
  }

  /** Every character of s, all of them ASCII, written as an escape `%XY`. */
  function EscapeAscii(s: string): (r: string)
    requires forall i | 0 <= i < |s| :: s[i] < 128 as char
    ensures |r| == 3 * |s| && forall j | 0 <= j < |r| :: (r[j] == '%' <==> j % 3 == 0)
  {
    if s == [] then []
    else
      var b := s[0] as int;
      ['%', HexDigit(b / 16), HexDigit(b % 16)] + EscapeAscii(s[1..])
  }

  /** Decoding undoes escaping. */
  lemma {:induction false} DecodeEscapedAscii(s: string)
    requires forall i | 0 <= i < |s| :: s[i] < 128 as char
    ensures PercentDecode(EscapeAscii(s)) == Some(s)
  {
    if s != [] {
      var e := EscapeAscii(s);
      var b := s[0] as int;
      assert EscapedOctet(e, 0) == Some(b);
      assert EscapedOctets(e, 0, 1) == Some([b]) by {
        assert EscapedOctets(e, 3, 0) == Some([]);
        assert [b] + [] == [b];
      }
      assert DecodeEscape(e) == Some((s[0], 3));
      assert e[3..] == EscapeAscii(s[1..]);
      DecodeEscapedAscii(s[1..]);
      assert [s[0]] + s[1..] == s;
    }
  }

  /** A `%` without two hexadecimal digits after it makes decoding fail
      (`decodeURIComponent` throws), whatever text, escapes included, stands
      before it. */
  lemma {:induction false} MalformedEscapeFails(t: string, u: string)
    requires |u| < 2 || HexValue(u[0]).None? || HexValue(u[1]).None?
    ensures PercentDecode(t + "%" + u) == None
    decreases |t|
  {
    var s := t + "%" + u;
    if t == [] {
      assert s == "%" + u;
      assert EscapedOctet(s, 0) == None;
    } else if t[0] != '%' {
      assert s[1..] == t[1..] + "%" + u;
      MalformedEscapeFails(t[1..], u);
    } else {
      EscapeEndsInside(t, u);
      match DecodeEscape(s)
      case None =>
      case Some((c, n)) =>
        assert s[n..] == t[n..] + "%" + u;
        MalformedEscapeFails(t[n..], u);
    }
  }

  /** An escape that `DecodeEscape` takes from the head of `t + "%" + u` ends
      inside t: the `%` after t is no hexadecimal digit, and u does not start
      with two of them. */
  lemma EscapeEndsInside(t: string, u: string)
    requires t != [] && t[0] == '%'
    requires |u| < 2 || HexValue(u[0]).None? || HexValue(u[1]).None?
    ensures var r := DecodeEscape(t + "%" + u); r.Some? ==> r.value.1 <= |t|
  {
    var s := t + "%" + u;
    if DecodeEscape(s).Some? {
      var n := SequenceLength(EscapedOctet(s, 0).value);
      EscapedOctetsShape(s, 0, n);
      if 3 * n > |t| {
        assert false;
      }
    }
  }

  /** Each of the n escapes that `EscapedOctets` reads from index k is a `%`
      followed by two hexadecimal digits. */
  lemma {:induction false} EscapedOctetsShape(s: string, k: nat, n: nat)
    requires k <= |s| && EscapedOctets(s, k, n).Some?
    ensures k + 3 * n <= |s|
    ensures forall j | 0 <= j < n ::
      s[k + 3 * j] == '%' && HexValue(s[k + 3 * j + 1]).Some? && HexValue(s[k + 3 * j + 2]).Some?
    decreases n
  {
    if n > 0 {
      EscapedOctetsShape(s, k + 3, n - 1);
      forall j | 0 <= j < n
        ensures s[k + 3 * j] == '%' && HexValue(s[k + 3 * j + 1]).Some? && HexValue(s[k + 3 * j + 2]).Some?
      {
        if j > 0 {
          assert k + 3 * j == (k + 3) + 3 * (j - 1);
        }
      }
    }
  }
}
