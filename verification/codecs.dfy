/**
 * The two precision codecs of the explorer client: jsonBigInt.UnmarshalJSON
 * (a quoted base-10 integer of any magnitude) and timestamp.UnmarshalJSON
 * (a quoted base-10 count of Unix seconds that must fit a signed 64-bit integer).
 */
module Codecs {
  import opened Wrappers
  import opened Errors
  import opened Decimal

  /** The JSON value an UnmarshalJSON method receives, as far as json.Unmarshal
      into a Go string can tell values apart. */
  datatype JsonValue = JsonString(text: string) | JsonNull | JsonNonString

  /** json.Unmarshal(jsonBytes, &s) into a fresh Go string s: a JSON string is
      copied, null is a no-op that leaves s empty, any other value is a type error. */
  function UnmarshalString(v: JsonValue): (r: Result<string, Error>)
    ensures r.Ok? <==> !v.JsonNonString?
    ensures r.Ok? ==> r.value == (if v.JsonString? then v.text else "")
    ensures r.Err? ==> r.error == JsonTypeError
  {
    match v
    case JsonString(text) => Ok(text)
    case JsonNull => Ok("")
    case JsonNonString => Err(JsonTypeError)
  }

  /** jsonBigInt.UnmarshalJSON: the exact integer, no 64-bit truncation. */
  function UnmarshalBigInt(v: JsonValue): (r: Result<int, Error>)
    ensures r.Ok? <==> v.JsonString? && IsLiteral(v.text)
    ensures r.Ok? ==> r.value == LiteralValue(v.text)
    ensures v.JsonString? && !IsLiteral(v.text) ==> r == Err(BigIntSyntax(v.text))
    ensures v.JsonNull? ==> r == Err(BigIntSyntax(""))
    ensures v.JsonNonString? ==> r == Err(JsonTypeError)
  {
    var s :- UnmarshalString(v);
    match Parse(s)
    case None => Err(BigIntSyntax(s))
    case Some(n) => Ok(n)
  }

  const MinInt64: int := -0x8000_0000_0000_0000
  const MaxInt64: int := 0x7fff_ffff_ffff_ffff

  predicate IsInt64(n: int) { MinInt64 <= n <= MaxInt64 }

  /** A point in time, as whole seconds relative to the Unix epoch. */
  datatype Timestamp = Unix(seconds: int)

  /** Go's zero time.Time (January 1, year 1, UTC): what a missing timeStamp leaves behind. */
  const ZeroTime: Timestamp := Unix(-62_135_596_800)

  /** timestamp.UnmarshalJSON: strconv.ParseInt(s, 10, 64), then time.Unix(n, 0). */
  function UnmarshalTimestamp(v: JsonValue): (r: Result<Timestamp, Error>)
    ensures r.Ok? <==> v.JsonString? && IsLiteral(v.text) && IsInt64(LiteralValue(v.text))
    ensures r.Ok? ==> r.value == Unix(LiteralValue(v.text))
    ensures v.JsonString? && r.Err? ==> r == Err(ParseIntError(v.text))
    ensures v.JsonNull? ==> r == Err(ParseIntError(""))
    ensures v.JsonNonString? ==> r == Err(JsonTypeError)
  {
    var s :- UnmarshalString(v);
    match Parse(s)
    case Some(n) => if IsInt64(n) then Ok(Unix(n)) else Err(ParseIntError(s))
    case None => Err(ParseIntError(s))
  }

  /** Every integer, however large, survives printing in base 10 and decoding. */
  lemma BigIntRoundTrip(n: int)
    ensures UnmarshalBigInt(JsonString(FormatInt(n))) == Ok(n)
  {
    ParseFormat(n);
  }

  /** A canonical decimal string decodes to an integer that prints back as the same string. */
  lemma BigIntPrintsBack(s: string)
    requires IsCanonical(s)
    ensures UnmarshalBigInt(JsonString(s)).Ok?
    ensures FormatInt(UnmarshalBigInt(JsonString(s)).value) == s
  {
    FormatParse(s);
  }

  /** A 30-digit amount, far beyond 64 bits, decodes without loss. */
  lemma BigIntPrecisionExample()
    ensures UnmarshalBigInt(JsonString("123456789012345678901234567890")).Ok?
    ensures FormatInt(UnmarshalBigInt(JsonString("123456789012345678901234567890")).value)
            == "123456789012345678901234567890"
  {
    var s := "123456789012345678901234567890";
    assert AllDigits(s) by {
      forall i | 0 <= i < |s| ensures IsDigit(s[i]) {
        assert s[i] in "0123456789";
      }
    }
    assert IsCanonical(s);
    BigIntPrintsBack(s);
  }

  /** Every second count in the int64 range survives printing and decoding. */
  lemma TimestampRoundTrip(n: int)
    requires IsInt64(n)
    ensures UnmarshalTimestamp(JsonString(FormatInt(n))) == Ok(Unix(n))
  {
    ParseFormat(n);
  }

  /** A well-formed literal outside the int64 range is rejected as a timestamp,
      although the same text is accepted as a big integer. */
  lemma TimestampRejectsOutOfRange(n: int)
    requires !IsInt64(n)
    ensures UnmarshalTimestamp(JsonString(FormatInt(n))).Err?
    ensures UnmarshalBigInt(JsonString(FormatInt(n))) == Ok(n)
  {
    ParseFormat(n);
  }

  /** Decoding a JSON array with a given element decoder: the elements' values in order, or the
      error of the first element that does not decode. */
  function UnmarshalArray<R, T>(elems: seq<R>, decode: R -> Result<T, Error>): (r: Result<seq<T>, Error>)
    ensures r.Ok? ==> |r.value| == |elems|
  {
    if elems == [] then Ok([])
    else
      var prefix :- UnmarshalArray(elems[..|elems| - 1], decode);
      var last :- decode(elems[|elems| - 1]);
      Ok(prefix + [last])
  }

  /** Every element before position i decodes. */
  predicate DecodesBefore<R, T>(elems: seq<R>, decode: R -> Result<T, Error>, i: nat)
    requires i <= |elems|
  {
    forall k :: 0 <= k < i ==> decode(elems[k]).Ok?
  }

  /** The array decodes exactly when every element does, and then into their values. */
  lemma {:induction false} UnmarshalArrayOk<R, T>(elems: seq<R>, decode: R -> Result<T, Error>)
    ensures UnmarshalArray(elems, decode).Ok? <==> DecodesBefore(elems, decode, |elems|)
    ensures UnmarshalArray(elems, decode).Ok? ==>
      forall i :: 0 <= i < |elems| ==> UnmarshalArray(elems, decode).value[i] == decode(elems[i]).value
    decreases |elems|
  {
    if elems != [] {
      var n := |elems| - 1;
      UnmarshalArrayOk(elems[..n], decode);
      assert forall i :: 0 <= i < n ==> elems[..n][i] == elems[i];
    }
  }

  /** A failing array reports the error of its first failing element. */
  lemma {:induction false} UnmarshalArrayErr<R, T>(elems: seq<R>, decode: R -> Result<T, Error>)
    ensures UnmarshalArray(elems, decode).Err? ==>
      exists i :: 0 <= i < |elems| && decode(elems[i]) == Err(UnmarshalArray(elems, decode).error)
        && DecodesBefore(elems, decode, i)
    decreases |elems|
  {
    if elems != [] {
      var n := |elems| - 1;
      assert forall i :: 0 <= i < n ==> elems[..n][i] == elems[i];
      if UnmarshalArray(elems[..n], decode).Err? {
        UnmarshalArrayErr(elems[..n], decode);
        var i :| 0 <= i < n && decode(elems[..n][i]) == Err(UnmarshalArray(elems[..n], decode).error)
          && DecodesBefore(elems[..n], decode, i);
        assert DecodesBefore(elems, decode, i);
      } else if UnmarshalArray(elems, decode).Err? {
        UnmarshalArrayOk(elems[..n], decode);
        assert DecodesBefore(elems, decode, n);
      }
    }
  }

  /** Once a prefix fails, the whole array fails with the same error. */
  lemma {:induction false} UnmarshalArrayKeepsError<R, T>(elems: seq<R>, decode: R -> Result<T, Error>, n: nat)
    requires n <= |elems|
    ensures UnmarshalArray(elems[..n], decode).Err? ==> UnmarshalArray(elems, decode) == UnmarshalArray(elems[..n], decode)
    decreases |elems| - n
  {
    if n < |elems| && UnmarshalArray(elems[..n], decode).Err? {
      UnmarshalArrayKeepsError(elems, decode, n + 1);
      assert elems[..n + 1][..n] == elems[..n];
    }
    if n == |elems| {
      assert elems[..n] == elems;
    }
  }
}
