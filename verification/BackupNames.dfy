/**
  The names of backups (internal/backup/backup.go): UTC calendar times in a fixed-width layout, as `time.Format` writes
  and `time.Parse` reads them.
 */
module BackupNames {
  import opened Ordering
  import opened HubDb

  // ---- Numbers of fixed width ----

  function Pow10(width: nat): nat {
    if width == 0 then 1 else 10 * Pow10(width - 1)
  }

  /** The last decimal digit. */
  function Digit(n: nat): char {
    ('0' as int + n % 10) as char
  }

  predicate IsDigit(c: char) {
    '0' <= c <= '9'
  }

  function DigitValue(c: char): nat
    requires IsDigit(c)
  {
    c as int - '0' as int
  }

  /** The decimal digits of n, with leading zeros. */
  function Digits(n: nat, width: nat): (s: string)
    ensures |s| == width
  {
    if width == 0 then "" else Digits(n / 10, width - 1) + [Digit(n)]
  }

  predicate IsDigits(s: string) {
    forall i | 0 <= i < |s| :: IsDigit(s[i])
  }

  function Value(s: string): nat
    requires IsDigits(s)
  {
    if |s| == 0 then 0 else 10 * Value(s[..|s| - 1]) + DigitValue(s[|s| - 1])
  }

  lemma DigitIs(n: nat)
    ensures IsDigit(Digit(n)) && 10 * (n / 10) + DigitValue(Digit(n)) == n
  {
  }

  lemma DigitOf(v: nat, c: char)
    requires IsDigit(c)
    ensures (10 * v + DigitValue(c)) / 10 == v && Digit(10 * v + DigitValue(c)) == c
  {
  }

  lemma {:induction false} ValueOfDigits(n: nat, width: nat)
    requires n < Pow10(width)
    ensures IsDigits(Digits(n, width)) && Value(Digits(n, width)) == n
  {
    if width > 0 {
      ValueOfDigits(n / 10, width - 1);
      DigitIs(n);
      assert Digits(n, width)[..width - 1] == Digits(n / 10, width - 1);
    }
  }

  lemma {:induction false} DigitsOfValue(s: string)
    requires IsDigits(s)
    ensures Value(s) < Pow10(|s|) && Digits(Value(s), |s|) == s
  {
    if |s| > 0 {
      var init, c := s[..|s| - 1], s[|s| - 1];
      DigitsOfValue(init);
      DigitOf(Value(init), c);
      assert s == init + [c];
    }
  }

  /** Texts whose first parts have the same length are compared by these, and then by what follows. */
  lemma {:induction false} ConcatOrder(a: string, x: string, b: string, y: string)
    requires |a| == |b|
    ensures StringLeq(a + x, b + y) <==> if a == b then StringLeq(x, y) else StringLeq(a, b)
  {
    if |a| == 0 {
      assert a + x == x && b + y == y;
    } else {
      assert (a + x)[1..] == a[1..] + x && (b + y)[1..] == b[1..] + y;
      assert a == [a[0]] + a[1..] && b == [b[0]] + b[1..];
      ConcatOrder(a[1..], x, b[1..], y);
    }
  }

  lemma DigitOrder(m: nat, n: nat)
    ensures StringLeq([Digit(m)], [Digit(n)]) <==> m % 10 <= n % 10
    ensures m <= n <==> m / 10 < n / 10 || (m / 10 == n / 10 && m % 10 <= n % 10)
  {
    assert [Digit(m)][1..] == "" && [Digit(n)][1..] == "";
  }

  /** Fixed width numbers are ordered as their texts. */
  lemma {:induction false} DigitsOrder(m: nat, n: nat, width: nat)
    requires m < Pow10(width) && n < Pow10(width)
    ensures StringLeq(Digits(m, width), Digits(n, width)) <==> m <= n
    ensures Digits(m, width) == Digits(n, width) <==> m == n
  {
    ValueOfDigits(m, width);
    ValueOfDigits(n, width);
    if width > 0 {
      DigitsOrder(m / 10, n / 10, width - 1);
      ConcatOrder(Digits(m / 10, width - 1), [Digit(m)], Digits(n / 10, width - 1), [Digit(n)]);
      DigitOrder(m, n);
    }
  }

  // ---- Calendar times as text ----

  /** A number of fixed width in a layout, perhaps with a mark before it. */
  datatype Part = Part(mark: Option<char>, width: nat)

  /** Year, month, day, hour, minute, second and nanosecond; UTC times are ordered field by field. */
  type Fields = seq<nat>

  const LAYOUT: seq<Part> := [Part(None, 4), Part(None, 2), Part(None, 2), Part(Some('T'), 2), Part(None, 2),
                              Part(None, 2), Part(Some('.'), 9)]

  predicate Fits(f: Fields, layout: seq<Part>) {
    |f| == |layout| && forall i | 0 <= i < |f| :: f[i] < Pow10(layout[i].width)
  }

  function MarkText(mark: Option<char>): string {
    if mark.None? then "" else [mark.value]
  }

  function Size(part: Part): nat {
    |MarkText(part.mark)| + part.width
  }

  function EncodePart(n: nat, part: Part): (s: string)
    ensures |s| == Size(part)
  {
    MarkText(part.mark) + Digits(n, part.width)
  }

  function Encode(f: Fields, layout: seq<Part>): string
    requires |f| == |layout|
  {
    if |f| == 0 then "" else EncodePart(f[0], layout[0]) + Encode(f[1..], layout[1..])
  }

  /** `time.Parse` reads a comma as a decimal point. */
  predicate Reads(c: char, mark: char) {
    c == mark || (mark == '.' && c == ',')
  }

  function DecodePart(s: string, part: Part): Option<nat>
    requires |s| == Size(part)
  {
    var skip := |MarkText(part.mark)|;
    if (part.mark.None? || Reads(s[0], part.mark.value)) && IsDigits(s[skip..]) then Some(Value(s[skip..])) else None
  }

  /** The fields of a text in this layout, and nothing after them. */
  function Decode(s: string, layout: seq<Part>): Option<Fields>
    decreases |layout|
  {
    if |layout| == 0 then if |s| == 0 then Some([]) else None
    else if |s| < Size(layout[0]) then None
    else
      var first, rest := DecodePart(s[..Size(layout[0])], layout[0]), Decode(s[Size(layout[0])..], layout[1..]);
      if first.None? || rest.None? then None else Some([first.value] + rest.value)
  }

  lemma DecodeEncodePart(n: nat, part: Part)
    requires n < Pow10(part.width)
    ensures DecodePart(EncodePart(n, part), part) == Some(n)
  {
    ValueOfDigits(n, part.width);
    assert EncodePart(n, part)[|MarkText(part.mark)|..] == Digits(n, part.width);
  }

  lemma EncodeDecodePart(s: string, part: Part)
    requires |s| == Size(part) && DecodePart(s, part).Some? && Plain(s)
    ensures DecodePart(s, part).value < Pow10(part.width) && EncodePart(DecodePart(s, part).value, part) == s
  {
    var skip := |MarkText(part.mark)|;
    MarkIs(s, part);
    DigitsOfValue(s[skip..]);
    assert s == MarkText(part.mark) + s[skip..];
  }

  /** Text without a comma begins with the mark itself. */
  lemma MarkIs(s: string, part: Part)
    requires |s| == Size(part) && DecodePart(s, part).Some? && Plain(s)
    ensures s[..|MarkText(part.mark)|] == MarkText(part.mark)
  {
    if part.mark.Some? {
      assert s[0] != ',';
    }
  }

  lemma {:induction false} DecodeEncode(f: Fields, layout: seq<Part>)
    requires Fits(f, layout)
    ensures Decode(Encode(f, layout), layout) == Some(f)
    decreases |layout|
  {
    if |layout| > 0 {
      DecodeEncode(f[1..], layout[1..]);
      DecodeEncodePart(f[0], layout[0]);
      DecodeFirst(EncodePart(f[0], layout[0]), Encode(f[1..], layout[1..]), layout);
      assert f == [f[0]] + f[1..];
    }
  }

  lemma DecodeFirst(s: string, rest: string, layout: seq<Part>)
    requires |layout| > 0 && |s| == Size(layout[0])
    requires DecodePart(s, layout[0]).Some? && Decode(rest, layout[1..]).Some?
    ensures Decode(s + rest, layout) == Some([DecodePart(s, layout[0]).value] + Decode(rest, layout[1..]).value)
  {
    assert (s + rest)[..|s|] == s && (s + rest)[|s|..] == rest;
  }

  /** The text has no comma. */
  predicate Plain(s: string) {
    forall i | 0 <= i < |s| :: s[i] != ','
  }

  lemma {:induction false} EncodeDecode(s: string, layout: seq<Part>)
    requires Decode(s, layout).Some? && Plain(s)
    ensures Fits(Decode(s, layout).value, layout) && Encode(Decode(s, layout).value, layout) == s
    decreases |layout|
  {
    if |layout| > 0 {
      var size := Size(layout[0]);
      var first, rest := s[..size], s[size..];
      assert s == first + rest;
      assert Plain(first) && Plain(rest);
      EncodeDecode(rest, layout[1..]);
      EncodeDecodePart(first, layout[0]);
      DecodeFirst(first, rest, layout);
      FitsFirst(DecodePart(first, layout[0]).value, Decode(rest, layout[1..]).value, layout);
    }
  }

  lemma FitsFirst(n: nat, rest: Fields, layout: seq<Part>)
    requires |layout| > 0 && n < Pow10(layout[0].width) && Fits(rest, layout[1..])
    ensures Fits([n] + rest, layout)
    ensures Encode([n] + rest, layout) == EncodePart(n, layout[0]) + Encode(rest, layout[1..])
  {
    assert ([n] + rest)[1..] == rest;
  }

  predicate FieldsLeq(f: Fields, g: Fields)
    requires |f| == |g|
  {
    |f| == 0 || f[0] < g[0] || (f[0] == g[0] && FieldsLeq(f[1..], g[1..]))
  }

  /** Texts of one layout are ordered as the fields they encode. */
  lemma {:induction false} EncodeOrder(f: Fields, g: Fields, layout: seq<Part>)
    requires Fits(f, layout) && Fits(g, layout)
    ensures StringLeq(Encode(f, layout), Encode(g, layout)) <==> FieldsLeq(f, g)
    ensures |Encode(f, layout)| == |Encode(g, layout)|
    decreases |layout|
  {
    if |layout| > 0 {
      var part := layout[0];
      EncodeOrder(f[1..], g[1..], layout[1..]);
      PartOrder(f[0], g[0], part);
      ConcatOrder(EncodePart(f[0], part), Encode(f[1..], layout[1..]),
                  EncodePart(g[0], part), Encode(g[1..], layout[1..]));
    }
  }

  lemma PartOrder(m: nat, n: nat, part: Part)
    requires m < Pow10(part.width) && n < Pow10(part.width)
    ensures StringLeq(EncodePart(m, part), EncodePart(n, part)) <==> m <= n
    ensures EncodePart(m, part) == EncodePart(n, part) <==> m == n
  {
    var mark := MarkText(part.mark);
    DigitsOrder(m, n, part.width);
    ConcatOrder(mark, Digits(m, part.width), mark, Digits(n, part.width));
    assert EncodePart(m, part)[|mark|..] == Digits(m, part.width);
    assert EncodePart(n, part)[|mark|..] == Digits(n, part.width);
  }

  function DaysIn(year: nat, month: nat): nat {
    if month == 2 then if year % 4 == 0 && (year % 100 != 0 || year % 400 == 0) then 29 else 28
    else if month == 4 || month == 6 || month == 9 || month == 11 then 30
    else 31
  }

  /** The months of a year, and the one day more of every fourth year but for three in four centuries. */
  lemma MonthLengths(year: nat, month: nat)
    requires 1 <= month <= 12
    ensures var leap := if year % 100 == 0 then year % 400 == 0 else year % 4 == 0;
            DaysIn(year, month) ==
            [31, if leap then 29 else 28, 31, 30, 31, 30, 31, 31, 30, 31, 30, 31][month - 1]
  {
    assert year % 100 == 0 && year % 400 == 0 ==> year % 4 == 0;
  }

  /** The fields make up a time of the calendar. */
  predicate IsTime(f: Fields) {
    && Fits(f, LAYOUT)
    && 1 <= f[1] <= 12 && 1 <= f[2] <= DaysIn(f[0], f[1])
    && f[3] < 24 && f[4] < 60 && f[5] < 60
  }

  // ---- Names ----

  const PREFIX: string := "seesize-"
  const SUFFIX: string := "Z.db"

  function Name(stamp: string): string {
    PREFIX + (stamp + SUFFIX)
  }

  /** The text between prefix and suffix. */
  function Strip(name: string, prefix: string, suffix: string): Option<string> {
    var p, q := |prefix|, |name| - |suffix|;
    if p <= q && name[..p] == prefix && name[q..] == suffix then Some(name[p..q]) else None
  }

  lemma StripIs(name: string, prefix: string, suffix: string, text: string)
    ensures Strip(name, prefix, suffix) == Some(text) <==> name == prefix + (text + suffix)
  {
    var p, q := |prefix|, |name| - |suffix|;
    if name == prefix + (text + suffix) {
      assert name[..p] == prefix && name[q..] == suffix && name[p..q] == text;
    }
    if Strip(name, prefix, suffix) == Some(text) {
      assert name == name[..p] + (name[p..q] + name[q..]);
    }
  }

  function NameOf(t: Fields): string
    requires |t| == |LAYOUT|
  {
    Name(Encode(t, LAYOUT))
  }

  function ReadTime(stamp: string): Option<Fields> {
    var t := Decode(stamp, LAYOUT);
    if t.Some? && IsTime(t.value) then t else None
  }

  /** The time in the name of a backup; None for other names. */
  function TimeOf(name: string): Option<Fields> {
    var stamp := Strip(name, PREFIX, SUFFIX);
    if stamp.None? then None else ReadTime(stamp.value)
  }

  /** Names with impossible dates or times are not recognised. */
  lemma RecognisedIsPossible(name: string)
    requires TimeOf(name).Some?
    ensures var t := TimeOf(name).value;
            && |t| == 7 && 1 <= t[1] <= 12 && 1 <= t[2] <= 31 && t[3] <= 23 && t[4] <= 59 && t[5] <= 59
            && (t[2] == 31 ==> t[1] !in {2, 4, 6, 9, 11}) && (t[2] == 30 ==> t[1] != 2)
  {
    MonthLengths(TimeOf(name).value[0], TimeOf(name).value[1]);
  }

  /** Every name the program gives is recognised, with its time. */
  lemma NameRoundTrip(t: Fields)
    requires IsTime(t)
    ensures TimeOf(NameOf(t)) == Some(t)
  {
    StripIs(NameOf(t), PREFIX, SUFFIX, Encode(t, LAYOUT));
    DecodeEncode(t, LAYOUT);
  }

  /** Every recognised name is one the program gives, but for a comma in the place of the point. */
  lemma PlainNamesOnly(name: string)
    requires TimeOf(name).Some? && Plain(name)
    ensures NameOf(TimeOf(name).value) == name
  {
    var stamp := Strip(name, PREFIX, SUFFIX).value;
    StripIs(name, PREFIX, SUFFIX, stamp);
    PlainMiddle(PREFIX, stamp, SUFFIX);
    EncodeReadTime(stamp);
  }

  lemma PlainMiddle(a: string, s: string, b: string)
    requires Plain(a + (s + b))
    ensures Plain(s)
  {
    forall i | 0 <= i < |s|
      ensures s[i] != ','
    {
      assert s[i] == (a + (s + b))[|a| + i];
    }
  }

  lemma EncodeReadTime(stamp: string)
    requires ReadTime(stamp).Some? && Plain(stamp)
    ensures Encode(ReadTime(stamp).value, LAYOUT) == stamp
  {
    EncodeDecode(stamp, LAYOUT);
  }

  /** The order of names is the order of times. */
  lemma NameOrder(s: Fields, t: Fields)
    requires IsTime(s) && IsTime(t)
    ensures StringLeq(NameOf(s), NameOf(t)) <==> FieldsLeq(s, t)
    ensures NameOf(s) == NameOf(t) <==> s == t
  {
    EncodeOrder(s, t, LAYOUT);
    ConcatOrder(PREFIX, Encode(s, LAYOUT) + SUFFIX, PREFIX, Encode(t, LAYOUT) + SUFFIX);
    ConcatOrder(Encode(s, LAYOUT), SUFFIX, Encode(t, LAYOUT), SUFFIX);
    StringLeqTotal(SUFFIX, SUFFIX);
    StringLeqTotal(Encode(s, LAYOUT), Encode(s, LAYOUT));
    NameRoundTrip(s);
    NameRoundTrip(t);
  }
}
