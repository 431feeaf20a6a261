/**
 * The C string helpers the configuration parser relies on: QEMU's
 * get_opt_name, the C library's strtoull and strtok, and a reference
 * split function they are proved against.
 *
 * A C string is modelled as the sequence of its characters before the
 * terminating NUL, and a pointer into it as the suffix it points at.
 */
module CStrings {
  import opened Wrappers

  /** The characters that a copy into a buffer with room for `n` characters keeps. */
  function Truncate(s: string, n: nat): (t: string)
    ensures |t| <= n && t <= s
    ensures |s| <= n ==> t == s
    ensures |s| > n ==> |t| == n
  {
    if |s| <= n then s else s[..n]
  }

  // ---------------------------------------------------------------------
  // Fields separated by a delimiter
  // ---------------------------------------------------------------------

  /** The length of the first field of `p`: the index of the first `d`, or the length of `p`. */
  function FieldEnd(p: string, d: char): (n: nat)
    ensures n <= |p|
    ensures forall i | 0 <= i < n :: p[i] != d
    ensures n < |p| ==> p[n] == d
    decreases |p|
  {
    if p == [] || p[0] == d then 0 else 1 + FieldEnd(p[1..], d)
  }

  /** A delimiter-free prefix followed by the end or by a delimiter is the whole first field. */
  lemma {:induction false} FieldEndPrefix(a: string, r: string, d: char)
    requires d !in a
    requires r == [] || r[0] == d
    ensures FieldEnd(a + r, d) == |a|
    decreases |a|
  {
    if a == [] {
      assert a + r == r;
    } else {
      assert (a + r)[0] == a[0];
      assert (a + r)[1..] == a[1..] + r;
      FieldEndPrefix(a[1..], r, d);
    }
  }

  /**
   * The fields of `s` between occurrences of `d`, first field first; there
   * is always one more field than delimiters.
   */
  function Split(s: string, d: char): (fields: seq<string>)
    ensures |fields| >= 1
    decreases |s|
  {
    var n := FieldEnd(s, d);
    if n == |s| then [s] else [s[..n]] + Split(s[n + 1..], d)
  }

  /** The fields joined back together with `d` between neighbours. */
  function Join(fields: seq<string>, d: char): string
    requires |fields| >= 1
    decreases |fields|
  {
    if |fields| == 1 then fields[0] else fields[0] + [d] + Join(fields[1..], d)
  }

  /** A string is recovered from its fields. */
  lemma {:induction false} JoinSplit(s: string, d: char)
    ensures Join(Split(s, d), d) == s
    decreases |s|
  {
    var n := FieldEnd(s, d);
    if n < |s| {
      var r := s[n + 1..];
      var g := Split(r, d);
      var f := [s[..n]] + g;
      assert Split(s, d) == f;
      assert |f| >= 2 && f[0] == s[..n] && f[1..] == g;
      JoinSplit(r, d);
      assert Join(f, d) == s[..n] + [d] + r;
      assert s == s[..n] + [d] + r;
    }
  }

  /** Delimiter-free fields are recovered from their join. */
  lemma {:induction false} SplitJoin(fields: seq<string>, d: char)
    requires |fields| >= 1
    requires forall i | 0 <= i < |fields| :: d !in fields[i]
    ensures Split(Join(fields, d), d) == fields
    decreases |fields|
  {
    var s := Join(fields, d);
    if |fields| == 1 {
      FieldEndPrefix(fields[0], [], d);
      assert fields[0] + [] == fields[0];
    } else {
      var rest := Join(fields[1..], d);
      SplitJoin(fields[1..], d);
      var a := fields[0];
      assert s == a + ([d] + rest);
      FieldEndPrefix(a, [d] + rest, d);
      assert s[..|a|] == a;
      assert s[|a| + 1..] == rest;
      assert fields == [a] + fields[1..];
    }
  }

  /** The first field of `p` is the text before its first delimiter, and the other fields follow that delimiter. */
  lemma SplitFirst(p: string, d: char)
    ensures Split(p, d)[0] == p[..FieldEnd(p, d)]
    ensures FieldEnd(p, d) == |p| <==> |Split(p, d)| == 1
    ensures FieldEnd(p, d) < |p| ==> Split(p[FieldEnd(p, d) + 1..], d) == Split(p, d)[1..]
  {
  }

  // ---------------------------------------------------------------------
  // QEMU's get_opt_name
  // ---------------------------------------------------------------------

  /**
   * QEMU's get_opt_name: copies the characters of `p` up to the first
   * `delim`, or up to the end, into a buffer with room for `room`
   * characters (buf_size - 1), and returns that copy together with the
   * rest of `p`, which starts at the delimiter or is empty. So the copy is
   * the first field of `p`, and after the delimiter come the other fields.
   */
  function GetOptName(p: string, delim: char, room: nat): (r: (string, string))
    ensures |r.1| <= |p|
    ensures r.0 == Truncate(Split(p, delim)[0], room)
    ensures r.1 == [] <==> |Split(p, delim)| == 1
    ensures r.1 != [] ==> r.1[0] == delim && Split(r.1[1..], delim) == Split(p, delim)[1..]
  {
    var n := FieldEnd(p, delim);
    SplitFirst(p, delim);
    assert n < |p| ==> p[n..][1..] == p[n + 1..];
    (Truncate(p[..n], room), p[n..])
  }

  /** With room for the whole of `p`, get_opt_name copies the first field untruncated. */
  lemma GetOptNameWhole(p: string, delim: char, room: nat)
    requires |p| <= room
    ensures GetOptName(p, delim, room).0 == Split(p, delim)[0]
  {
    SplitFirst(p, delim);
  }

  /** A buffer with room for the whole of `p` makes no difference to get_opt_name. */
  lemma GetOptNameRoomFree(p: string, delim: char, a: nat, b: nat)
    requires |p| <= a && |p| <= b
    ensures GetOptName(p, delim, a) == GetOptName(p, delim, b)
  {
    GetOptNameWhole(p, delim, a);
    GetOptNameWhole(p, delim, b);
  }

  // ---------------------------------------------------------------------
  // strtoull(s, NULL, 10)
  // ---------------------------------------------------------------------

  /** The largest value an unsigned long long holds; strtoull saturates to it. */
  const ULLONG_MAX: nat := 0xFFFF_FFFF_FFFF_FFFF

  predicate IsDigit(c: char) {
    '0' <= c <= '9'
  }

  /** isspace in the C locale: space, and tab through carriage return. */
  predicate IsSpace(c: char) {
    c == ' ' || '\t' <= c <= '\r'
  }

  function SkipSpace(s: string): (t: string)
    ensures |t| <= |s|
    decreases |s|
  {
    if s != [] && IsSpace(s[0]) then SkipSpace(s[1..]) else s
  }

  /** The number of decimal digits at the start of `s`. */
  function DigitCount(s: string): (n: nat)
    ensures n <= |s|
    decreases |s|
  {
    if s != [] && IsDigit(s[0]) then 1 + DigitCount(s[1..]) else 0
  }

  /** The value of a decimal digit; other characters count as 0. */
  function DigitValue(c: char): nat {
    if IsDigit(c) then (c - '0') as nat else 0
  }

  /** The value of a string of decimal digits, most significant first. */
  function DecimalValue(ds: string): nat
    decreases |ds|
  {
    if ds == [] then 0 else DecimalValue(ds[..|ds| - 1]) * 10 + DigitValue(ds[|ds| - 1])
  }

  /**
   * strtoull with base 10: leading white space is skipped, an optional sign
   * is accepted, then the longest run of digits is converted. No digits
   * yields 0; a magnitude beyond ULLONG_MAX yields ULLONG_MAX; a minus sign
   * negates modulo 2^64.
   */
  function StrToULL(s: string): (v: nat)
    ensures v <= ULLONG_MAX
  {
    var t := SkipSpace(s);
    var signed := t != [] && (t[0] == '+' || t[0] == '-');
    var u := if signed then t[1..] else t;
    var n := DigitCount(u);
    var magnitude := DecimalValue(u[..n]);
    if magnitude > ULLONG_MAX then ULLONG_MAX
    else if signed && t[0] == '-' then (ULLONG_MAX + 1 - magnitude) % (ULLONG_MAX + 1)
    else magnitude
  }

  /** The decimal spelling of `n`, without leading zeros. */
  function ToDecimal(n: nat): (s: string)
    ensures |s| >= 1 && forall i | 0 <= i < |s| :: IsDigit(s[i])
    decreases n
  {
    var c := ('0' as int + n % 10) as char;
    if n < 10 then [c] else ToDecimal(n / 10) + [c]
  }

  lemma {:induction false} DecimalValueOfToDecimal(n: nat)
    ensures DecimalValue(ToDecimal(n)) == n
    decreases n
  {
    var s := ToDecimal(n);
    if n >= 10 {
      DecimalValueOfToDecimal(n / 10);
      assert s[..|s| - 1] == ToDecimal(n / 10);
    }
  }

  /** strtoull reads back the decimal spelling of any value it can represent, whatever non-digit text follows. */
  lemma StrToULLOfDecimal(n: nat, tail: string)
    requires n <= ULLONG_MAX
    requires tail == [] || !IsDigit(tail[0])
    ensures StrToULL(ToDecimal(n) + tail) == n
  {
    var ds := ToDecimal(n);
    var s := ds + tail;
    assert s[0] == ds[0] && IsDigit(s[0]);
    assert SkipSpace(s) == s;
    assert !(s[0] == '+' || s[0] == '-');
    DigitCountPrefix(ds, tail);
    assert s[..DigitCount(s)] == ds;
    DecimalValueOfToDecimal(n);
  }

  lemma {:induction false} DigitCountPrefix(ds: string, tail: string)
    requires forall i | 0 <= i < |ds| :: IsDigit(ds[i])
    requires tail == [] || !IsDigit(tail[0])
    ensures DigitCount(ds + tail) == |ds|
    decreases |ds|
  {
    if ds == [] {
      assert ds + tail == tail;
    } else {
      assert (ds + tail)[1..] == ds[1..] + tail;
      DigitCountPrefix(ds[1..], tail);
    }
  }

  // ---------------------------------------------------------------------
  // strtok(s, delim)
  // ---------------------------------------------------------------------

  /** The non-empty fields, in order. */
  function NonEmpty(fields: seq<string>): (r: seq<string>)
    ensures |r| <= |fields|
    decreases |fields|
  {
    if fields == [] then []
    else if fields[0] == [] then NonEmpty(fields[1..])
    else [fields[0]] + NonEmpty(fields[1..])
  }

  /** Fields that are all non-empty are kept as they are. */
  lemma {:induction false} NonEmptyKeepsAll(fields: seq<string>)
    requires forall i | 0 <= i < |fields| :: fields[i] != []
    ensures NonEmpty(fields) == fields
    decreases |fields|
  {
    if fields != [] {
      NonEmptyKeepsAll(fields[1..]);
    }
  }

  /** The maximal non-empty runs of characters other than `d`: consecutive delimiters collapse. */
  function Tokens(s: string, d: char): seq<string> {
    NonEmpty(Split(s, d))
  }

  function SkipDelims(s: string, d: char): (t: string)
    ensures |t| <= |s| && t == s[|s| - |t|..]
    ensures t == [] || t[0] != d
    decreases |s|
  {
    if s != [] && s[0] == d then SkipDelims(s[1..], d) else s
  }

  /**
   * One call of strtok: skips leading delimiters; on reaching the end it
   * returns no token; otherwise it returns the token up to the next
   * delimiter or the end, and the position it resumes from (just after the
   * delimiter it overwrote, or the end).
   */
  function StrTok(s: string, d: char): (r: Option<(string, string)>)
  {
    var t := SkipDelims(s, d);
    if t == [] then None
    else
      var (tok, rest) := GetOptName(t, d, |t|);
      Some((tok, if rest == [] then [] else rest[1..]))
  }

  lemma {:induction false} TokensSkipDelims(s: string, d: char)
    ensures Tokens(SkipDelims(s, d), d) == Tokens(s, d)
    decreases |s|
  {
    if s != [] && s[0] == d {
      TokensSkipDelims(s[1..], d);
      assert Split(s, d) == [[]] + Split(s[1..], d);
    }
  }

  /** A text that starts with a token has that token first, followed by the tokens after its delimiter. */
  lemma TokensFirst(t: string, d: char)
    requires t != [] && t[0] != d
    ensures var (tok, rest) := GetOptName(t, d, |t|);
      Tokens(t, d) == [tok] + Tokens(if rest == [] then [] else rest[1..], d)
  {
    SplitFirst(t, d);
    var n := FieldEnd(t, d);
    var f := Split(t, d);
    assert n > 0;
    assert f[0] == t[..n] != [];
    assert f == [f[0]] + f[1..];
    assert NonEmpty(f) == [f[0]] + NonEmpty(f[1..]);
    if n == |t| {
      assert f[1..] == [];
      assert Split([], d) == [[]];
    }
  }

  /** strtok returns the first token and resumes at the text holding the remaining tokens. */
  lemma StrTokTokens(s: string, d: char)
    ensures StrTok(s, d).None? <==> Tokens(s, d) == []
    ensures StrTok(s, d).Some? ==>
      Tokens(s, d) == [StrTok(s, d).value.0] + Tokens(StrTok(s, d).value.1, d)
  {
    TokensSkipDelims(s, d);
    var t := SkipDelims(s, d);
    if t == [] {
      assert Split(t, d) == [[]];
    } else {
      TokensFirst(t, d);
    }
  }
}
