/**
 * Lookup of `key=value` parameters in the option string given to the
 * `-heca` switch (QEMU's get_param_value) and the glue's get_param and
 * get_param_int wrappers around it.
 */
module Options {
  import opened Wrappers
  import opened CStrings
  import opened Types

  /** The option string, already split into its `key=value` pairs, in order. */
  type OptionList = seq<(string, string)>

  /** Size of the buffers the wrappers read a value into. */
  const PARAM_BUF: nat := 128

  /** Pair `i` is the first whose key is `tag`. */
  predicate IsFirst(opts: OptionList, tag: string, i: nat) {
    && i < |opts|
    && opts[i].0 == tag
    && forall j | 0 <= j < i :: opts[j].0 != tag
  }

  /**
   * The value of the first pair whose key is `tag`, copied into a buffer
   * of `bufSize` bytes. QEMU reports the length of the copy, so an empty
   * value reads as "not found".
   */
  function GetParamValue(opts: OptionList, tag: string, bufSize: nat): (r: Option<string>)
    requires bufSize > 0
    ensures r.Some? ==> 0 < |r.value| < bufSize
    ensures r.Some? <==> exists i: nat :: IsFirst(opts, tag, i) && Truncate(opts[i].1, bufSize - 1) != []
    ensures forall i: nat | IsFirst(opts, tag, i) :: r.Some? ==> r.value == Truncate(opts[i].1, bufSize - 1)
    decreases |opts|
  {
    if opts == [] then None
    else if opts[0].0 == tag then
      assert IsFirst(opts, tag, 0);
      var v := Truncate(opts[0].1, bufSize - 1);
      if v == [] then None else Some(v)
    else
      var r := GetParamValue(opts[1..], tag, bufSize);
      assert forall i: nat | IsFirst(opts, tag, i) :: i > 0 && IsFirst(opts[1..], tag, i - 1);
      assert forall i: nat | IsFirst(opts[1..], tag, i) :: IsFirst(opts, tag, i + 1);
      r
  }

  /** get_param: the lookup, exiting when the key is missing or its value is empty. */
  function GetParam(opts: OptionList, name: string, bufSize: nat): (r: Result<string, ConfigError>)
    requires bufSize > 0
    ensures r.Success? <==> GetParamValue(opts, name, bufSize).Some?
    ensures r.Success? ==> r.value == GetParamValue(opts, name, bufSize).value
  {
    match GetParamValue(opts, name, bufSize)
    case Some(v) => Success(v)
    case None => Failure(MissingParam(name))
  }

  /**
   * get_param_int: the value converted with strtoull and stored into a
   * uint32_t; zero and anything with bits above 0xFFFF exit.
   */
  function GetParamInt(opts: OptionList, name: string): (r: Result<nat, ConfigError>)
    ensures r.Success? ==> 1 <= r.value <= 0xFFFF
    ensures GetParamValue(opts, name, PARAM_BUF).None? ==> r.Failure?
  {
    match GetParam(opts, name, PARAM_BUF)
    case Failure(e) => Failure(e)
    case Success(v) =>
      var n := StrToULL(v) % 0x1_0000_0000;
      if n == 0 || n > 0xFFFF then Failure(BadParamInt(name)) else Success(n)
  }

  /** Storing `k * 2^32 + n` into a uint32_t keeps `n`. */
  lemma StoredAsUint32(x: nat, k: nat, n: nat)
    requires x == k * 0x1_0000_0000 + n && n < 0x1_0000_0000
    ensures x % 0x1_0000_0000 == n
  {
  }

  /** The value a parameter's first pair spells, when it is short enough to be copied whole. */
  lemma GetParamValueOfFirst(opts: OptionList, tag: string, i: nat)
    requires IsFirst(opts, tag, i)
    requires 0 < |opts[i].1| < PARAM_BUF
    ensures GetParamValue(opts, tag, PARAM_BUF) == Some(opts[i].1)
  {
  }

  /** get_param_int reads back every value in 1..0xFFFF written in decimal, with any non-digit text after it. */
  lemma GetParamIntOfDecimal(opts: OptionList, name: string, i: nat, n: nat, tail: string)
    requires IsFirst(opts, name, i)
    requires opts[i].1 == ToDecimal(n) + tail && |opts[i].1| < PARAM_BUF
    requires tail == [] || !IsDigit(tail[0])
    requires 1 <= n <= 0xFFFF
    ensures GetParamInt(opts, name) == Success(n)
  {
    GetParamValueOfFirst(opts, name, i);
    assert GetParam(opts, name, PARAM_BUF) == Success(opts[i].1);
    StrToULLOfDecimal(n, tail);
    StoredAsUint32(StrToULL(opts[i].1), 0, n);
  }

  /** Zero, and values from 0x10000 up to 2^32 - 1, are rejected. */
  lemma GetParamIntRejectsOutOfRange(opts: OptionList, name: string, i: nat, n: nat)
    requires IsFirst(opts, name, i)
    requires opts[i].1 == ToDecimal(n) && |opts[i].1| < PARAM_BUF
    requires n == 0 || 0xFFFF < n < 0x1_0000_0000
    ensures GetParamInt(opts, name).Failure?
  {
    GetParamValueOfFirst(opts, name, i);
    assert ToDecimal(n) + [] == ToDecimal(n);
    StrToULLOfDecimal(n, []);
    StoredAsUint32(StrToULL(opts[i].1), 0, n);
  }

  /** Because the value is stored into a uint32_t first, 2^32 + n passes the range check as n. */
  lemma GetParamIntWrapsAt32Bits(opts: OptionList, name: string, i: nat, n: nat)
    requires IsFirst(opts, name, i)
    requires opts[i].1 == ToDecimal(0x1_0000_0000 + n) && |opts[i].1| < PARAM_BUF
    requires 1 <= n <= 0xFFFF
    ensures GetParamInt(opts, name) == Success(n)
  {
    var big := 0x1_0000_0000 + n;
    var v := ToDecimal(big);
    GetParamValueOfFirst(opts, name, i);
    assert GetParam(opts, name, PARAM_BUF) == Success(v);
    assert v + [] == v;
    StrToULLOfDecimal(big, []);
    StoredAsUint32(StrToULL(v), 1, n);
  }

  /** A value that does not start with a digit, a sign or white space reads as 0 and is rejected. */
  lemma GetParamIntRejectsNonNumeric(opts: OptionList, name: string, i: nat)
    requires IsFirst(opts, name, i)
    requires 0 < |opts[i].1| < PARAM_BUF
    requires var c := opts[i].1[0]; !IsDigit(c) && !IsSpace(c) && c != '+' && c != '-'
    ensures GetParamInt(opts, name).Failure?
  {
    GetParamValueOfFirst(opts, name, i);
    assert SkipSpace(opts[i].1) == opts[i].1;
  }
}
