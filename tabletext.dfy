/**
 The text form of a rule table (entombed.py:237-244): `lut_to_str` writes
 each value followed by a comma, and `lut_from_str` splits a string on commas
 and converts every field with Python's `int`.
 */
module TableText {
  import opened Results

  // ---------------------------------------------------------------------
  // Decimal text of an integer, as `"{}".format(v)` writes it.

  predicate IsDigit(ch: char) {
    '0' <= ch <= '9'
  }

  function DigitChar(d: nat): (ch: char)
    requires d < 10
  {
    (d + '0' as int) as char
  }

  function DigitValue(ch: char): nat
    requires IsDigit(ch)
  {
    (ch as int) - ('0' as int)
  }

  /** The decimal digits of `n`, most significant first, without leading zeros. */
  function NatToDecimal(n: nat): (s: string)
    ensures |s| > 0 && forall i :: 0 <= i < |s| ==> IsDigit(s[i])
    decreases n
  {
    if n < 10 then [DigitChar(n)] else NatToDecimal(n / 10) + [DigitChar(n % 10)]
  }

  function IntToDecimal(v: int): string {
    if v < 0 then "-" + NatToDecimal(-v) else NatToDecimal(v)
  }

  // ---------------------------------------------------------------------
  // `int(s)` for a string in base 10.

  /**
   The characters `int` ignores around the number: among ASCII characters
   only tab, line feed, vertical tab, form feed, carriage return and space
   (U+001C..U+001F are not skipped, although `str.isspace` accepts them), and
   every non-ASCII character `str.isspace` accepts.
   */
  predicate IsSpace(ch: char) {
    || '\t' <= ch <= '\r'
    || ch == ' ' || ch == '\U{85}' || ch == '\U{a0}' || ch == '\U{1680}'
    || '\U{2000}' <= ch <= '\U{200a}'
    || ch == '\U{2028}' || ch == '\U{2029}' || ch == '\U{202f}' || ch == '\U{205f}' || ch == '\U{3000}'
  }

  function StripLeft(s: string): (t: string)
    ensures |t| <= |s| && t == s[|s| - |t|..]
    ensures |t| > 0 ==> !IsSpace(t[0])
    ensures forall i :: 0 <= i < |s| - |t| ==> IsSpace(s[i])
  {
    if |s| > 0 && IsSpace(s[0]) then StripLeft(s[1..]) else s
  }

  function StripRight(s: string): (t: string)
    ensures |t| <= |s| && t == s[..|t|]
    ensures |t| > 0 ==> !IsSpace(t[|t| - 1])
    ensures forall i :: |t| <= i < |s| ==> IsSpace(s[i])
  {
    if |s| > 0 && IsSpace(s[|s| - 1]) then StripRight(s[..|s| - 1]) else s
  }

  function Strip(s: string): string {
    StripRight(StripLeft(s))
  }

  /**
   Digits, with single underscores allowed between two digits: the body of
   a base-10 literal `int` accepts after an optional sign.
   */
  predicate WellFormedDigits(b: string) {
    && |b| > 0
    && IsDigit(b[0]) && IsDigit(b[|b| - 1])
    && (forall i :: 0 <= i < |b| ==> IsDigit(b[i]) || b[i] == '_')
    && (forall i :: 0 <= i < |b| - 1 ==> b[i] == '_' ==> b[i + 1] != '_')
  }

  /** The number the digits of `b` spell, underscores skipped. */
  function DigitsValue(b: string): nat
    requires forall i :: 0 <= i < |b| ==> IsDigit(b[i]) || b[i] == '_'
  {
    if |b| == 0 then 0
    else if b[|b| - 1] == '_' then DigitsValue(b[..|b| - 1])
    else DigitsValue(b[..|b| - 1]) * 10 + DigitValue(b[|b| - 1])
  }

  /**
   `int(s)`: surrounding whitespace is ignored, then an optional sign and
   the digits. Anything else raises ValueError naming the literal.
   */
  function ParseInt(s: string): Result<int> {
    var t := Strip(s);
    if |t| == 0 then Err(ValueError(s))
    else
      var negative := t[0] == '-';
      var body := if t[0] == '-' || t[0] == '+' then t[1..] else t;
      if WellFormedDigits(body) then
        var magnitude: int := DigitsValue(body);
        Ok(if negative then -magnitude else magnitude)
      else Err(ValueError(s))
  }

  // ---------------------------------------------------------------------
  // `str.split(sep)`.

  /**
   The fields of `s` between occurrences of `sep`. There is always one more
   field than separators, so the empty string has one empty field.
   */
  function Split(s: string, sep: char): (parts: seq<string>)
    ensures |parts| >= 1
  {
    if |s| == 0 then [""]
    else
      var rest := Split(s[1..], sep);
      if s[0] == sep then [""] + rest else [[s[0]] + rest[0]] + rest[1..]
  }

  /** The fields joined back with `sep` between consecutive ones. */
  function JoinWith(parts: seq<string>, sep: char): string
    requires |parts| >= 1
  {
    if |parts| == 1 then parts[0] else parts[0] + [sep] + JoinWith(parts[1..], sep)
  }

  function Occurrences(s: string, ch: char): nat {
    if |s| == 0 then 0 else (if s[0] == ch then 1 else 0) + Occurrences(s[1..], ch)
  }

  // ---------------------------------------------------------------------
  // The table text form.

  /** `lut_to_str`: each value's decimal text followed by a comma. */
  function Serialized(lut: seq<int>): string {
    if |lut| == 0 then "" else Serialized(lut[..|lut| - 1]) + IntToDecimal(lut[|lut| - 1]) + ","
  }

  /** The accumulating loop of `lut_to_str`. */
  method LutToStr(lut: seq<int>) returns (outs: string)
    ensures outs == Serialized(lut)
    ensures |lut| > 0 ==> outs == Joined(lut) + ","
  {
    outs := "";
    for i := 0 to |lut|
      invariant outs == Serialized(lut[..i])
    {
      assert lut[..i + 1][..i] == lut[..i];
      outs := outs + IntToDecimal(lut[i]) + ",";
    }
    assert lut[..|lut|] == lut;
    if |lut| > 0 {
      SerializedIsJoinedWithComma(lut);
    }
  }

  /** The values' decimal texts with a comma between consecutive ones. */
  function Joined(lut: seq<int>): string
    requires |lut| > 0
  {
    if |lut| == 1 then IntToDecimal(lut[0]) else Joined(lut[..|lut| - 1]) + "," + IntToDecimal(lut[|lut| - 1])
  }

  /**
   `list(map(convert, xs))` for a conversion that may raise: converts from
   the left, and the first element `convert` rejects raises.
   */
  function MapAll<T, U>(convert: T -> Result<U>, xs: seq<T>): Result<seq<U>>
  {
    if |xs| == 0 then Ok([])
    else match MapAll(convert, xs[..|xs| - 1])
      case Err(e) => Err(e)
      case Ok(vs) =>
        match convert(xs[|xs| - 1])
        case Err(e) => Err(e)
        case Ok(v) => Ok(vs + [v])
  }

  /** The conversion succeeds exactly when `convert` accepts every element. */
  lemma {:induction false} MapAllOk<T, U>(convert: T -> Result<U>, xs: seq<T>)
    ensures MapAll(convert, xs).Ok? <==> forall i :: 0 <= i < |xs| ==> convert(xs[i]).Ok?
  {
    if |xs| > 0 {
      var init := xs[..|xs| - 1];
      MapAllOk(convert, init);
      if MapAll(convert, init).Err? {
        var i :| 0 <= i < |init| && !convert(init[i]).Ok?;
        assert xs[i] == init[i];
      } else {
        assert forall i :: 0 <= i < |init| ==> init[i] == xs[i];
      }
    }
  }

  /** A successful conversion has one value per element, each what `convert` gives for it. */
  lemma {:induction false} MapAllAt<T, U>(convert: T -> Result<U>, xs: seq<T>)
    requires MapAll(convert, xs).Ok?
    ensures var vs := MapAll(convert, xs).value;
      |vs| == |xs| && forall i :: 0 <= i < |xs| ==> convert(xs[i]) == Ok(vs[i])
  {
    if |xs| > 0 {
      var init := xs[..|xs| - 1];
      MapAllAt(convert, init);
      var vs := MapAll(convert, xs).value;
      assert vs == MapAll(convert, init).value + [convert(xs[|xs| - 1]).value];
      forall i | 0 <= i < |xs|
        ensures convert(xs[i]) == Ok(vs[i])
      {
        if i < |init| {
          assert xs[i] == init[i];
        }
      }
    }
  }

  /** A failed conversion raises the error of the first element `convert` rejects. */
  lemma {:induction false} MapAllFirstError<T, U>(convert: T -> Result<U>, xs: seq<T>)
    requires MapAll(convert, xs).Err?
    ensures exists i :: (0 <= i < |xs| && convert(xs[i]) == Err(MapAll(convert, xs).error)
                         && forall j :: 0 <= j < i ==> convert(xs[j]).Ok?)
  {
    if |xs| > 0 {
      var init := xs[..|xs| - 1];
      if MapAll(convert, init).Err? {
        MapAllFirstError(convert, init);
        var i :| 0 <= i < |init| && convert(init[i]) == Err(MapAll(convert, init).error)
          && (forall j :: 0 <= j < i ==> convert(init[j]).Ok?);
        assert forall j :: 0 <= j <= i ==> xs[j] == init[j];
      } else {
        MapAllOk(convert, init);
        assert forall j :: 0 <= j < |xs| - 1 ==> xs[j] == init[j];
      }
    }
  }

  /** `map(int, fields)`, listed. */
  function ParseFields(fields: seq<string>): Result<seq<int>>
  {
    MapAll(ParseInt, fields)
  }

  /** `lut_from_str`: neither the number of fields nor their values are checked. */
  function LutFromStr(s: string): (r: Result<seq<int>>)
    ensures var fields := Split(s, ',');
      && (r.Ok? <==> forall i :: 0 <= i < |fields| ==> ParseInt(fields[i]).Ok?)
      && (r.Ok? ==> |r.value| == |fields| && forall i :: 0 <= i < |fields| ==> ParseInt(fields[i]) == Ok(r.value[i]))
      && (r.Err? ==> exists i :: (0 <= i < |fields| && ParseInt(fields[i]) == Err(r.error)
                                   && forall j :: 0 <= j < i ==> ParseInt(fields[j]).Ok?))
  {
    var fields := Split(s, ',');
    MapAllOk(ParseInt, fields);
    if MapAll(ParseInt, fields).Ok? then MapAllAt(ParseInt, fields); ParseFields(fields)
    else MapAllFirstError(ParseInt, fields); ParseFields(fields)
  }

  /**
   The text form without the trailing comma, as a comma join. With this
   serializer the table read back is the table written.
   */
  method LutToText(lut: seq<int>) returns (outs: string)
    requires |lut| > 0
    ensures outs == Joined(lut)
    ensures LutFromStr(outs) == Ok(lut)
  {
    outs := IntToDecimal(lut[0]);
    for i := 1 to |lut|
      invariant outs == Joined(lut[..i])
    {
      assert lut[..i + 1][..i] == lut[..i];
      outs := outs + "," + IntToDecimal(lut[i]);
    }
    assert lut[..|lut|] == lut;
    JoinedRoundTrip(lut);
  }

  // ---------------------------------------------------------------------
  // Decimal text and `int` are inverse.

  /** Reading back the digits of `n` gives `n`. */
  lemma {:induction false} NatToDecimalValue(n: nat)
    ensures DigitsValue(NatToDecimal(n)) == n
    decreases n
  {
    var s := NatToDecimal(n);
    if n < 10 {
      assert s[..0] == [];
    } else {
      NatToDecimalValue(n / 10);
      assert s[..|s| - 1] == NatToDecimal(n / 10);
    }
  }

  /** A string that neither starts nor ends with whitespace is its own strip. */
  lemma StripUnchanged(s: string)
    requires |s| > 0 && !IsSpace(s[0]) && !IsSpace(s[|s| - 1])
    ensures Strip(s) == s
  {
    assert StripLeft(s) == s;
  }

  /** A literal of digits alone reads as the number its digits spell. */
  lemma ParseUnsigned(d: string)
    requires WellFormedDigits(d)
    ensures ParseInt(d) == Ok(DigitsValue(d))
  {
    StripUnchanged(d);
  }

  /** A minus sign followed by digits reads as the negated number. */
  lemma ParseNegative(d: string)
    requires WellFormedDigits(d)
    ensures ParseInt("-" + d) == Ok(-(DigitsValue(d) as int))
  {
    var s := "-" + d;
    assert s[|s| - 1] == d[|d| - 1];
    StripUnchanged(s);
    assert s[1..] == d;
  }

  /** The decimal text of `n` is a literal `int` accepts. */
  lemma DecimalWellFormed(n: nat)
    ensures WellFormedDigits(NatToDecimal(n))
  {
  }

  /** `int("{}".format(v)) == v` for every integer `v`. */
  lemma ParseIntRoundTrip(v: int)
    ensures ParseInt(IntToDecimal(v)) == Ok(v)
  {
    var magnitude: nat := if v < 0 then -v else v;
    NatToDecimalValue(magnitude);
    DecimalWellFormed(magnitude);
    if v < 0 {
      ParseNegative(NatToDecimal(magnitude));
    } else {
      ParseUnsigned(NatToDecimal(magnitude));
    }
  }

  /** The empty field raises, naming the empty literal. */
  lemma ParseIntEmpty()
    ensures ParseInt("") == Err(ValueError(""))
  {
  }

  // ---------------------------------------------------------------------
  // Split and JoinWith.

  /** Splitting at a separator splits the two sides independently. */
  lemma {:induction false} SplitAppend(a: string, b: string, sep: char)
    ensures Split(a + [sep] + b, sep) == Split(a, sep) + Split(b, sep)
    decreases |a|
  {
    var s := a + [sep] + b;
    if |a| == 0 {
      assert s == [sep] + b && s[1..] == b;
    } else {
      assert s[1..] == a[1..] + [sep] + b;
      SplitAppend(a[1..], b, sep);
    }
  }

  /** A string without the separator is one field. */
  lemma {:induction false} SplitNoSeparator(s: string, sep: char)
    requires forall i :: 0 <= i < |s| ==> s[i] != sep
    ensures Split(s, sep) == [s]
    decreases |s|
  {
    if |s| > 0 {
      SplitNoSeparator(s[1..], sep);
      assert [s[0]] + s[1..] == s;
    }
  }

  /** No field contains the separator, and there is one more field than separators. */
  lemma {:induction false} SplitFields(s: string, sep: char)
    ensures var parts := Split(s, sep);
      && |parts| == Occurrences(s, sep) + 1
      && forall k, i :: 0 <= k < |parts| && 0 <= i < |parts[k]| ==> parts[k][i] != sep
    decreases |s|
  {
    if |s| > 0 {
      SplitFields(s[1..], sep);
    }
  }

  /** Joining the fields gives back the string split. */
  lemma {:induction false} JoinSplit(s: string, sep: char)
    ensures JoinWith(Split(s, sep), sep) == s
    decreases |s|
  {
    if |s| > 0 {
      JoinSplit(s[1..], sep);
      var rest := Split(s[1..], sep);
      if s[0] == sep {
        assert ([""] + rest)[1..] == rest;
      } else if |rest| > 1 {
        assert ([[s[0]] + rest[0]] + rest[1..])[1..] == rest[1..];
      }
    }
  }

  /** Splitting a join of separator-free fields gives the fields back. */
  lemma {:induction false} SplitJoin(parts: seq<string>, sep: char)
    requires |parts| >= 1
    requires forall k, i :: 0 <= k < |parts| && 0 <= i < |parts[k]| ==> parts[k][i] != sep
    ensures Split(JoinWith(parts, sep), sep) == parts
    decreases |parts|
  {
    SplitNoSeparator(parts[0], sep);
    if |parts| > 1 {
      SplitJoin(parts[1..], sep);
      SplitAppend(parts[0], JoinWith(parts[1..], sep), sep);
      assert [parts[0]] + parts[1..] == parts;
    }
  }

  // ---------------------------------------------------------------------
  // The table text round trip.

  /** The decimal text of each value, in order. */
  function Decimals(lut: seq<int>): (ds: seq<string>)
    ensures |ds| == |lut|
  {
    seq(|lut|, i requires 0 <= i < |lut| => IntToDecimal(lut[i]))
  }

  lemma DecimalHasNoComma(v: int)
    ensures forall i :: 0 <= i < |IntToDecimal(v)| ==> IntToDecimal(v)[i] != ','
  {
  }

  /** `lut_to_str` is the comma join followed by one more comma. */
  lemma {:induction false} SerializedIsJoinedWithComma(lut: seq<int>)
    requires |lut| > 0
    ensures Serialized(lut) == Joined(lut) + ","
    decreases |lut|
  {
    if |lut| > 1 {
      SerializedIsJoinedWithComma(lut[..|lut| - 1]);
    } else {
      assert lut[..0] == [];
    }
  }

  lemma DecimalsLast(lut: seq<int>)
    requires |lut| > 0
    ensures Decimals(lut) == Decimals(lut[..|lut| - 1]) + [IntToDecimal(lut[|lut| - 1])]
  {
  }

  /** The fields of the comma join are the values' texts. */
  lemma {:induction false} JoinedFields(lut: seq<int>)
    requires |lut| > 0
    ensures Split(Joined(lut), ',') == Decimals(lut)
    decreases |lut|
  {
    var n := |lut|;
    var last := IntToDecimal(lut[n - 1]);
    DecimalHasNoComma(lut[n - 1]);
    SplitNoSeparator(last, ',');
    if n > 1 {
      var p := lut[..n - 1];
      JoinedFields(p);
      SplitAppend(Joined(p), last, ',');
      assert Joined(lut) == Joined(p) + [','] + last;
      DecimalsLast(lut);
    }
  }

  /** Converting every value's text gives the values back. */
  lemma {:induction false} ParseDecimals(lut: seq<int>)
    ensures ParseFields(Decimals(lut)) == Ok(lut)
    decreases |lut|
  {
    var n := |lut|;
    if n > 0 {
      var p := lut[..n - 1];
      ParseDecimals(p);
      ParseDecimalsStep(p, lut[n - 1]);
      DropLast(lut);
    } else {
      assert Decimals(lut) == [];
    }
  }

  /** A non-empty sequence is its prefix followed by its last element. */
  lemma DropLast<T>(s: seq<T>)
    requires |s| > 0
    ensures s[..|s| - 1] + [s[|s| - 1]] == s
  {
  }

  lemma ParseDecimalsStep(p: seq<int>, v: int)
    requires ParseFields(Decimals(p)) == Ok(p)
    ensures ParseFields(Decimals(p + [v])) == Ok(p + [v])
  {
    ParseIntRoundTrip(v);
    ParseFieldsSnoc(Decimals(p), IntToDecimal(v), p, v);
    DecimalsLast(p + [v]);
    assert (p + [v])[..|p|] == p;
  }

  lemma ParseFieldsSnoc(fields: seq<string>, f: string, vs: seq<int>, v: int)
    requires ParseFields(fields) == Ok(vs) && ParseInt(f) == Ok(v)
    ensures ParseFields(fields + [f]) == Ok(vs + [v])
  {
    assert (fields + [f])[..|fields|] == fields;
  }

  /**
   A table written without the trailing comma reads back as itself, whatever
   its length and values: reading checks neither.
   */
  lemma JoinedRoundTrip(lut: seq<int>)
    requires |lut| > 0
    ensures LutFromStr(Joined(lut)) == Ok(lut)
  {
    JoinedFields(lut);
    ParseDecimals(lut);
  }

  /** Dropping the final comma of `lut_to_str`'s output makes the round trip work. */
  lemma WithoutTrailingCommaRoundTrip(lut: seq<int>)
    requires |lut| > 0
    ensures var s := Serialized(lut);
      |s| > 0 && s[|s| - 1] == ',' && LutFromStr(s[..|s| - 1]) == Ok(lut)
  {
    SerializedIsJoinedWithComma(lut);
    var s := Serialized(lut);
    assert s[..|s| - 1] == Joined(lut);
    JoinedRoundTrip(lut);
  }

  /**
   `lut_from_str(lut_to_str(l))` raises for every table: the text ends with
   a comma, so its last field is empty and `int("")` raises ValueError.
   */
  lemma TrailingCommaFails(lut: seq<int>)
    ensures LutFromStr(Serialized(lut)) == Err(ValueError(""))
  {
    ParseIntEmpty();
    if |lut| > 0 {
      SerializedIsJoinedWithComma(lut);
      JoinedFields(lut);
      ParseDecimals(lut);
      SplitAppend(Joined(lut), "", ',');
      assert Serialized(lut) == Joined(lut) + [','] + "";
      ParseFieldsEmptyLast(Decimals(lut));
    }
  }

  /** A last field that is empty makes the conversion raise, unless an earlier field already did. */
  lemma ParseFieldsEmptyLast(fields: seq<string>)
    requires ParseFields(fields).Ok? && ParseInt("") == Err(ValueError(""))
    ensures ParseFields(fields + [""]) == Err(ValueError(""))
  {
    assert (fields + [""])[..|fields|] == fields;
  }

  /** A table read from text has one entry per field: nothing checks for 32. */
  lemma LutFromStrLength(s: string)
    requires LutFromStr(s).Ok?
    ensures |LutFromStr(s).value| == Occurrences(s, ',') + 1
  {
    SplitFields(s, ',');
  }


  /**
   For values 0..9 the text is two characters per entry: the digit, then a
   comma.
   */
  lemma {:induction false} SingleDigitLayout(lut: seq<int>)
    requires forall i :: 0 <= i < |lut| ==> 0 <= lut[i] <= 9
    ensures var s := Serialized(lut);
      && |s| == 2 * |lut|
      && forall i :: 0 <= i < |lut| ==> s[2 * i] == DigitChar(lut[i]) && s[2 * i + 1] == ','
    decreases |lut|
  {
    if |lut| > 0 {
      SingleDigitLayout(lut[..|lut| - 1]);
    }
  }
}
