/** Reading the capture date out of an image's metadata: finding the DateTimeOriginal
    property item, decoding its bytes as ASCII and cutting the year and the month out of
    the text at fixed offsets. */
module Exif {
  import opened Results

  /** PropertyItem.Id of PropertyTagExifDTOrig, the original capture date and time. */
  const PropertyTagExifDTOrig: int := 0x9003

  /** Layout "YYYY:MM:DD HH:MM:SS": the year is 4 characters at offset 0, the month 2 at offset 5. */
  const YearStartIndex: nat := 0
  const YearStringLength: nat := 4
  const MonthStartIndex: nat := 5
  const MonthStringLength: nat := 2

  /** A metadata item of a decoded image: its tag id and its raw value. */
  datatype PropertyItem = PropertyItem(id: int, value: Bytes)

  /** What the image decoder makes of a file: its property items, the "not an image" signal
      (an OutOfMemoryException from Image.FromFile), or some other failure. */
  datatype DecodeResult = Decoded(items: seq<PropertyItem>) | NotAnImage | Unreadable

  /** FirstOrDefault(p => p.Id == id): the earliest item carrying the id, or nothing when
      no item carries it. */
  function FirstWithId(items: seq<PropertyItem>, id: int): (r: Option<PropertyItem>)
    ensures r.None? <==> forall k :: 0 <= k < |items| ==> items[k].id != id
    ensures r.Some? ==>
      exists k :: 0 <= k < |items| && items[k] == r.value && r.value.id == id &&
        forall j :: 0 <= j < k ==> items[j].id != id
  {
    if items == [] then None
    else if items[0].id == id then Some(items[0])
    else
      var r := FirstWithId(items[1..], id);
      assert forall k :: 1 <= k < |items| ==> items[k] == items[1..][k - 1];
      r
  }

  /** One byte as Encoding.ASCII decodes it: bytes above 0x7F become '?'. */
  function AsciiChar(b: Byte): char
  {
    if b < 0x80 then (b as int) as char else '?'
  }

  /** Encoding.ASCII.GetString: one character per byte. */
  function AsciiGetString(bytes: Bytes): (s: string)
    ensures |s| == |bytes|
    ensures forall i :: 0 <= i < |bytes| ==> s[i] == AsciiChar(bytes[i])
  {
    seq(|bytes|, i requires 0 <= i < |bytes| => AsciiChar(bytes[i]))
  }

  predicate IsAscii(s: string)
  {
    forall i :: 0 <= i < |s| ==> s[i] < 128 as char
  }

  /** Encoding.ASCII.GetBytes on a string of ASCII characters, the inverse of AsciiGetString. */
  function AsciiGetBytes(s: string): (bytes: Bytes)
    requires IsAscii(s)
    ensures |bytes| == |s|
  {
    seq(|s|, i requires 0 <= i < |s| => (s[i] as int) as Byte)
  }

  lemma AsciiRoundTrip(s: string)
    requires IsAscii(s)
    ensures AsciiGetString(AsciiGetBytes(s)) == s
  {
    var bytes := AsciiGetBytes(s);
    forall i | 0 <= i < |s| ensures AsciiGetString(bytes)[i] == s[i] {
      assert bytes[i] as int == s[i] as int;
    }
  }

  /** string.Substring(start, length), which throws when the range runs past the end. */
  function Substring(s: string, start: nat, length: nat): (r: Result<string>)
    ensures r.Ok? <==> start + length <= |s|
    ensures r.Ok? ==> |r.value| == length && forall i :: 0 <= i < length ==> r.value[i] == s[start + i]
    ensures r.Err? ==> r.error == ArgumentOutOfRange
  {
    if start + length <= |s| then Ok(s[start..start + length]) else Err(ArgumentOutOfRange)
  }

  datatype YearMonth = YearMonth(year: string, month: string)

  /** GetYearAndMonth: decode the value as ASCII, then take the year and the month substrings.
      Any value shorter than 7 bytes makes the month substring throw. */
  function GetYearAndMonth(value: Bytes): (r: Result<YearMonth>)
    ensures r.Ok? <==> |value| >= MonthStartIndex + MonthStringLength
    ensures r.Err? ==> r.error == ArgumentOutOfRange
    ensures r.Ok? ==> |r.value.year| == YearStringLength && |r.value.month| == MonthStringLength
    ensures r.Ok? ==> forall i :: 0 <= i < YearStringLength ==>
      r.value.year[i] == AsciiChar(value[YearStartIndex + i])
    ensures r.Ok? ==> forall i :: 0 <= i < MonthStringLength ==>
      r.value.month[i] == AsciiChar(value[MonthStartIndex + i])
  {
    var dateTime := AsciiGetString(value);
    var year :- Substring(dateTime, YearStartIndex, YearStringLength);
    var month :- Substring(dateTime, MonthStartIndex, MonthStringLength);
    Ok(YearMonth(year, month))
  }

  /** Year and month come back exactly from any ASCII value laid out as y, one character of
      any kind, m, and anything after. */
  lemma YearAndMonthOfLayout(y: string, separator: char, m: string, rest: string)
    requires |y| == 4 && |m| == 2 && IsAscii(y + [separator] + m + rest)
    ensures GetYearAndMonth(AsciiGetBytes(y + [separator] + m + rest)) == Ok(YearMonth(y, m))
  {
    var text := y + [separator] + m + rest;
    AsciiRoundTrip(text);
    assert text[0..4] == y;
    assert text[5..7] == m;
  }

  /** Decimal digits of n, `width` of them, most significant first, with leading zeros. */
  function Digits(n: nat, width: nat): (s: string)
    ensures |s| == width
    ensures IsAscii(s)
  {
    if width == 0 then ""
    else Digits(n / 10, width - 1) + [(('0' as int) + n % 10) as char]
  }

  /** The number a string of decimal digits denotes. */
  function DecimalValue(s: string): int
  {
    if s == "" then 0
    else DecimalValue(s[..|s| - 1]) * 10 + (s[|s| - 1] as int - '0' as int)
  }

  function Pow10(k: nat): nat
  {
    if k == 0 then 1 else 10 * Pow10(k - 1)
  }

  lemma {:induction false} DigitsValue(n: nat, width: nat)
    requires n < Pow10(width)
    ensures DecimalValue(Digits(n, width)) == n
  {
    if width > 0 {
      DigitsValue(n / 10, width - 1);
      var s := Digits(n, width);
      assert s[..|s| - 1] == Digits(n / 10, width - 1);
    }
  }

  /** The 20-byte value a camera writes: "YYYY:MM:DD HH:MM:SS" and a NUL terminator. */
  function DateTimeOriginalValue(year: nat, month: nat, day: nat, hour: nat, minute: nat, second: nat): Bytes
  {
    var text := Digits(year, 4) + ":" + Digits(month, 2) + ":" + Digits(day, 2) + " " +
                Digits(hour, 2) + ":" + Digits(minute, 2) + ":" + Digits(second, 2) + "\0";
    assert IsAscii(text);
    AsciiGetBytes(text)
  }

  /** On a well-formed capture date the year and month strings are the digits of that year
      and that month, and they denote them. */
  lemma DateTimeOriginalYearAndMonth(year: nat, month: nat, day: nat, hour: nat, minute: nat, second: nat)
    requires year < 10000 && month < 100
    ensures |DateTimeOriginalValue(year, month, day, hour, minute, second)| == 20
    ensures GetYearAndMonth(DateTimeOriginalValue(year, month, day, hour, minute, second))
            == Ok(YearMonth(Digits(year, 4), Digits(month, 2)))
    ensures DecimalValue(Digits(year, 4)) == year && DecimalValue(Digits(month, 2)) == month
  {
    var y, m := Digits(year, 4), Digits(month, 2);
    var rest := ":" + Digits(day, 2) + " " + Digits(hour, 2) + ":" + Digits(minute, 2) + ":" + Digits(second, 2) + "\0";
    var text := Digits(year, 4) + ":" + Digits(month, 2) + ":" + Digits(day, 2) + " " +
                Digits(hour, 2) + ":" + Digits(minute, 2) + ":" + Digits(second, 2) + "\0";
    assert text == y + [':'] + m + rest;
    YearAndMonthOfLayout(y, ':', m, rest);
    assert Pow10(4) == 10000 && Pow10(2) == 100;
    DigitsValue(year, 4);
    DigitsValue(month, 2);
  }
}
