/** The CSV text of Data_Structures/Assignment2/nm4358/lcms.cpp: how
    `exportData` writes a book as one line, and how `import` takes a line apart
    again. Both are pure string transforms on one line without its line
    break; the order in which `exportData` visits the categories is `Visit` in
    the `LibrarySystem` module, and the file streams are left out. */
module Csv {
  import opened Outcomes
  import opened Text
  import IntegerRanges

  /** The header line both sides agree on: `exportData` writes it, `import`
      skips the first line whatever it says. */
  const Header: string := "Title,Author,ISBN,Publication Year,Category,Total Copies,Available Copies"

  // ---------------------------------------------------------------- export

  /** The text `exportData` writes between the quotes of a field: each `"`
      doubled, every other character as it is. */
  function Escaped(s: string): (r: string)
    decreases |s|
  {
    if s == [] then [] else (if s[0] == '"' then "\"\"" else [s[0]]) + Escaped(s[1..])
  }

  /** How `exportData` writes a title, an author or a category name. */
  function Quoted(s: string): string
  {
    "\"" + Escaped(s) + "\""
  }

  /** The usual CSV reading of a quoted field's inside: two `"` stand for one.
      This is the inverse `exportData` escapes for; `import` does not use it
      (see `TakeField`). */
  function Unescaped(s: string): (r: string)
    decreases |s|
  {
    if s == [] then []
    else if |s| >= 2 && s[0] == '"' && s[1] == '"' then "\"" + Unescaped(s[2..])
    else [s[0]] + Unescaped(s[1..])
  }

  /** Escaping works character by character. */
  lemma {:induction false} EscapedAppend(a: string, b: string)
    ensures Escaped(a + b) == Escaped(a) + Escaped(b)
    decreases |a|
  {
    if a != [] {
      assert (a + b)[1..] == a[1..] + b;
      EscapedAppend(a[1..], b);
    } else {
      assert a + b == b;
    }
  }

  /** A text without `"` is written as it is. */
  lemma {:induction false} EscapedNoQuote(s: string)
    requires '"' !in s
    ensures Escaped(s) == s
    decreases |s|
  {
    if s != [] {
      EscapedNoQuote(s[1..]);
      assert [s[0]] + s[1..] == s;
    }
  }

  /** Doubling the quotes loses nothing: the CSV reading gives the text back. */
  lemma {:induction false} UnescapeEscaped(s: string)
    ensures Unescaped(Escaped(s)) == s
    decreases |s|
  {
    if s != [] {
      UnescapeEscaped(s[1..]);
      var e := Escaped(s[1..]);
      if s[0] == '"' {
        assert ("\"\"" + e)[2..] == e;
      } else {
        assert ([s[0]] + e)[1..] == e;
      }
      assert [s[0]] + s[1..] == s;
    }
  }

  /** The `"`-doubling loop `exportData` runs for each quoted field, with the
      quotes around it. */
  method WriteQuoted(s: string) returns (out: string)
    ensures out == Quoted(s)
  {
    out := "\"";
    for j := 0 to |s|
      invariant out == "\"" + Escaped(s[..j])
    {
      if s[j] == '"' {
        out := out + "\"\"";
      } else {
        out := out + [s[j]];
      }
      assert Escaped([s[j]]) == (if s[j] == '"' then "\"\"" else [s[j]]);
      EscapedAppend(s[..j], [s[j]]);
      assert s[..j + 1] == s[..j] + [s[j]];
    }
    assert s[..|s|] == s;
    out := out + "\"";
  }

  /** A field, the comma after it, and the rest of the line. */
  function Comma(field: string, rest: string): string
  {
    field + [','] + rest
  }

  /** The line `exportData` writes for one book shelved in the category named
      `category`: quoted title and author, the ISBN as it is, the year, the
      quoted category name, the two copy counts, separated by commas. */
  function RecordLine(title: string, author: string, isbn: string, year: int,
                      category: string, total: int, available: int): (r: string)
    ensures |r| > |Quoted(title)| && r[..|Quoted(title)| + 1] == Quoted(title) + [',']
  {
    Comma(Quoted(title), Comma(Quoted(author), Comma(isbn, Comma(Decimal(year),
      Comma(Quoted(category), Comma(Decimal(total), Decimal(available)))))))
  }

  // ---------------------------------------------------------------- import

  /** `getline(ss, field, c)` on a stream holding `s`: the text before the
      first `c`, or all of `s`. */
  function UpTo(s: string, c: char): (r: string)
    ensures |r| <= |s| && r == s[..|r|] && c !in r
    ensures |r| < |s| ==> s[|r|] == c
  {
    match Find(s, c)
    case None => s
    case Some(i) => s[..i]
  }

  /** A title or author taken off the front of a line, with what is left of
      the line; or the line is skipped as malformed; or `substr` threw
      `std::out_of_range`, which nothing in `import` catches. */
  datatype Taken = Taken(field: string, rest: string) | Malformed | SubstrThrew

  /** Taking the title (or the author) off the front of a line. A line that
      starts with `"` holds the field up to the next `"`, with no notion of a
      doubled quote; the rest of the line starts two characters after that
      quote, whatever they are, and a line that ends right at the quote makes
      `substr` throw. A line without a closing quote is malformed. Any other
      line holds the field up to the first comma; a line with no comma (the
      empty line among them) makes `substr` throw. */
  function TakeField(line: string): (r: Taken)
    ensures r.Taken? ==> |r.rest| < |line|
  {
    if line != [] && line[0] == '"' then
      match Find(line[1..], '"')
      case None => Malformed
      case Some(j) =>
        if j + 3 <= |line| then Taken(line[1..j + 1], line[j + 3..]) else SubstrThrew
    else
      var f := UpTo(line, ',');
      if |f| + 1 <= |line| then Taken(f, line[|f| + 1..]) else SubstrThrew
  }

  /** The characters `>>` skips before a number: space, tab, line feed,
      vertical tab, form feed, carriage return. */
  predicate IsSpace(c: char)
  {
    c == ' ' || '\t' <= c <= '\r'
  }

  predicate IsDigit(c: char)
  {
    '0' <= c <= '9'
  }

  /** `s` without its leading white space. */
  function SkipSpace(s: string): (r: string)
    ensures |r| <= |s|
    ensures r != [] ==> !IsSpace(r[0])
    decreases |s|
  {
    if s != [] && IsSpace(s[0]) then SkipSpace(s[1..]) else s
  }

  /** The length of the run of digits `s` starts with. */
  function DigitRun(s: string): (k: nat)
    ensures k <= |s|
    ensures forall j :: 0 <= j < k ==> IsDigit(s[j])
    ensures k < |s| ==> !IsDigit(s[k])
    decreases |s|
  {
    if s != [] && IsDigit(s[0]) then 1 + DigitRun(s[1..]) else 0
  }

  /** The digits `v` starts with, read as a number, and what follows them;
      nothing when `v` does not start with a digit. */
  function ReadDigits(v: string): (r: Option<(nat, string)>)
    ensures r.Some? ==> |r.value.1| < |v|
  {
    var k := DigitRun(v);
    if k == 0 then None else Some((DigitsValue(v[..k]), v[k..]))
  }

  /** A value an `int` can hold. */
  predicate InInt(x: int)
  {
    IntegerRanges.INT_MIN <= x <= IntegerRanges.INT_MAX
  }

  /** The `int` nearest to `x`. */
  function Clamp(x: int): (r: int)
    ensures InInt(r)
    ensures InInt(x) ==> r == x
    ensures x < IntegerRanges.INT_MIN ==> r == IntegerRanges.INT_MIN
    ensures x > IntegerRanges.INT_MAX ==> r == IntegerRanges.INT_MAX
  {
    if x < IntegerRanges.INT_MIN then IntegerRanges.INT_MIN
    else if x > IntegerRanges.INT_MAX then IntegerRanges.INT_MAX
    else x
  }

  /** What `ss >> n` does to an `int`. `NoNumber`: no digit, the read fails
      and stores 0 (or nothing at the end of the line). `Number`: the value
      and the text after it. `Saturated`: the digits denote a number no `int`
      holds, so the read stores the nearest `int` and fails, and every later
      read on the stream fails with it. */
  datatype IntRead = NoNumber | Number(value: int, rest: string) | Saturated(value: int)

  /** The read of a number `x` the digits spelled out, followed by `rest`:
      the range check of `operator>>(int&)`. */
  function IntFrom(x: int, rest: string): (r: IntRead)
    ensures r.Number? <==> InInt(x)
    ensures r.Number? ==> r.value == x && r.rest == rest
    ensures r.Saturated? ==> r.value == Clamp(x)
  {
    if InInt(x) then Number(x, rest) else Saturated(Clamp(x))
  }

  /** `ss >> n` for an `int`: white space, an optional sign, then as many
      digits as there are; the number and what follows it. No digit: the read
      fails. Too many digits for an `int`: the read saturates. */
  function ReadInt(s: string): (r: IntRead)
    ensures r.Number? ==> InInt(r.value) && |r.rest| < |s|
    ensures r.Saturated? ==> r.value == IntegerRanges.INT_MIN || r.value == IntegerRanges.INT_MAX
  {
    var u := SkipSpace(s);
    if u != [] && u[0] == '-' then
      match ReadDigits(u[1..])
      case None => NoNumber
      case Some((m, r)) => IntFrom(-(m as int), r)
    else
      var v := if u != [] && u[0] == '+' then u[1..] else u;
      match ReadDigits(v)
      case None => NoNumber
      case Some((m, r)) => IntFrom(m, r)
  }

  /** A record as `import` reads it, in the order of the header. */
  datatype Fields = Fields(title: string, author: string, isbn: string, year: int,
                           category: string, total: int, available: int)

  /** What `import` makes of one line after the header. `Skipped`: the title or
      author is malformed, the line is reported and skipped. `Thrown`: a
      `substr` past the end threw `std::out_of_range` and the import stops
      there. `Undefined`: a number could not be read after an earlier read
      had already failed, so the book would be built from an `int` nothing
      ever set. */
  datatype LineOutcome = Parsed(fields: Fields) | Skipped | Thrown | Undefined

  /** The reads after the author, one function per statement, each filling
      one field of `f` and passing the rest of the line on. Once a read fails
      every later read fails too and leaves its variable unset, so the book
      would be built from an `int` nothing set: `Undefined`. A book that is
      made holds counts and a year an `int` can hold. */
  function ReadIsbn(f: Fields, s: string): (r: LineOutcome)
    ensures r.Parsed? ==> InInt(r.fields.year) && InInt(r.fields.total) && InInt(r.fields.available)
  {
    match Find(s, ',')
    case None => Undefined   // the ISBN runs to the end: the year read fails
    case Some(i) => ReadYear(f.(isbn := s[..i]), s[i + 1..])
  }

  function ReadYear(f: Fields, s: string): (r: LineOutcome)
    ensures r.Parsed? ==> InInt(r.fields.year) && InInt(r.fields.total) && InInt(r.fields.available)
  {
    match ReadInt(s)
    case NoNumber => Undefined
    case Saturated(_) => Undefined
    case Number(year, r) =>
      if r == [] then Undefined   // `ignore` meets the end: every later read fails
      else ReadCategory(f.(year := year), r[1..])
  }

  function ReadCategory(f: Fields, s: string): (r: LineOutcome)
    ensures r.Parsed? ==> r.fields.year == f.year && InInt(r.fields.total) && InInt(r.fields.available)
  {
    match Find(s, ',')
    case None => Undefined   // the category runs to the end: the total read fails
    case Some(k) => ReadTotal(f.(category := s[..k]), s[k + 1..])
  }

  function ReadTotal(f: Fields, s: string): (r: LineOutcome)
    ensures r.Parsed? ==> r.fields.year == f.year && InInt(r.fields.total) && InInt(r.fields.available)
  {
    match ReadInt(s)
    case NoNumber => Undefined
    case Saturated(_) => Undefined
    case Number(total, r) =>
      if r == [] then Undefined
      else ReadAvailable(f.(total := total), r[1..])
  }

  /** The last read: when it is the first to fail, and fails on a character
      rather than at the end of the line, `>>` stores 0 and the book is made;
      when it saturates, the book is made with the nearest `int`. */
  function ReadAvailable(f: Fields, s: string): (r: LineOutcome)
    ensures r.Parsed? ==> r.fields == f.(available := r.fields.available) && InInt(r.fields.available)
    ensures r.Undefined? <==> SkipSpace(s) == []
  {
    match ReadInt(s)
    case Number(available, _) => Parsed(f.(available := available))
    case Saturated(available) => Parsed(f.(available := available))
    case NoNumber => if SkipSpace(s) == [] then Undefined else Parsed(f.(available := 0))
  }

  /** One line of the file, as the body of `import`'s loop reads it. */
  function ParseLine(line: string): (r: LineOutcome)
    ensures r.Parsed? ==> InInt(r.fields.year) && InInt(r.fields.total) && InInt(r.fields.available)
  {
    match TakeField(line)
    case Malformed => Skipped
    case SubstrThrew => Thrown
    case Taken(title, rest) =>
      match TakeField(rest)
      case Malformed => Skipped
      case SubstrThrew => Thrown
      case Taken(author, rest') => ReadIsbn(Fields(title, author, "", 0, "", 0, 0), rest')
  }

  // ---------------------------------------------------------------- round trip

  /** `find` stops at the first occurrence. */
  lemma {:induction false} FindFirst(u: string, c: char, k: nat)
    requires k < |u| && u[k] == c
    requires forall j :: 0 <= j < k ==> u[j] != c
    ensures Find(u, c) == Some(k)
  {
  }

  /** A quoted field followed by a comma comes back from `TakeField` exactly
      when it holds no `"`: `import` ends the field at the first quote it
      sees, so a doubled quote cuts the field short. */
  lemma {:induction false} QuotedFieldRoundTrip(s: string, rest: string)
    ensures TakeField(Comma(Quoted(s), rest)) == Taken(s, rest) <==> '"' !in s
  {
    if '"' !in s {
      QuotedTaken(s, rest);
    } else {
      QuotedCut(s, rest);
    }
  }

  lemma {:induction false} QuotedTaken(s: string, rest: string)
    requires '"' !in s
    ensures TakeField(Comma(Quoted(s), rest)) == Taken(s, rest)
  {
    EscapedNoQuote(s);
    var line := Comma(Quoted(s), rest);
    QuoteLayout(s, rest);
    FindFirst(line[1..], '"', |s|);
  }

  lemma {:induction false} QuotedCut(s: string, rest: string)
    requires '"' in s
    ensures TakeField(Comma(Quoted(s), rest)) != Taken(s, rest)
  {
    var f := Find(s, '"');
    assert f.Some?;
    var k := f.value;
    EscapedUpToQuote(s, k);
    QuoteLayout(Escaped(s), rest);
    var line := Comma(Quoted(s), rest);
    FindFirst(line[1..], '"', k);
  }

  /** Up to the first `"` of `s`, its escaped text is `s` itself, and the
      escaped text has a `"` where that first one is. */
  lemma {:induction false} EscapedUpToQuote(s: string, k: nat)
    requires k < |s| && s[k] == '"'
    requires forall j :: 0 <= j < k ==> s[j] != '"'
    ensures k < |Escaped(s)| && Escaped(s)[k] == '"'
    ensures forall j :: 0 <= j < k ==> Escaped(s)[j] == s[j]
    decreases k
  {
    if k > 0 {
      EscapedUpToQuote(s[1..], k - 1);
    }
  }

  /** Where the parts of a quoted field and its comma sit in the line. */
  lemma {:induction false} QuoteLayout(x: string, rest: string)
    ensures var l := Comma("\"" + x + "\"", rest);
      |l| == |x| + 3 + |rest| && l[0] == '"' && l[|x| + 1] == '"'
      && (forall j :: 0 <= j < |x| ==> l[1..][j] == x[j])
      && l[1..|x| + 1] == x && l[|x| + 3..] == rest
  {
    var l := Comma("\"" + x + "\"", rest);
    assert l == ['"'] + x + ['"', ','] + rest;
    assert l[1..|x| + 1] == x;
  }

  /** A run of digits followed by a non-digit is read to its end. */
  lemma {:induction false} DigitRunOf(d: string, rest: string)
    requires forall j :: 0 <= j < |d| ==> IsDigit(d[j])
    requires rest == [] || !IsDigit(rest[0])
    ensures DigitRun(d + rest) == |d|
    ensures (d + rest)[..|d|] == d && (d + rest)[|d|..] == rest
    decreases |d|
  {
    if d != [] {
      assert (d + rest)[1..] == d[1..] + rest;
      DigitRunOf(d[1..], rest);
    } else {
      assert d + rest == rest;
    }
  }

  /** The digits `%d` writes for `n` are read back as `n`. */
  lemma {:induction false} DigitsBack(n: nat, rest: string)
    requires rest == [] || !IsDigit(rest[0])
    ensures ReadDigits(DecimalDigits(n) + rest) == Some((n, rest))
  {
    DigitRunOf(DecimalDigits(n), rest);
    DecimalDigitsRoundTrip(n);
  }

  lemma {:induction false} NoSpaceFirst(s: string)
    requires s != [] && !IsSpace(s[0])
    ensures SkipSpace(s) == s
  {
  }

  /** Digits followed by a non-digit are read to their end. */
  lemma {:induction false} ReadDigitsOf(d: string, rest: string)
    requires d != [] && forall j :: 0 <= j < |d| ==> IsDigit(d[j])
    requires rest == [] || !IsDigit(rest[0])
    ensures ReadDigits(d + rest) == Some((DigitsValue(d), rest))
  {
    DigitRunOf(d, rest);
  }

  /** Digits followed by a non-digit: `>>` reads them and stops there. */
  lemma {:induction false} ReadUnsigned(d: string, rest: string)
    requires d != [] && forall j :: 0 <= j < |d| ==> IsDigit(d[j])
    requires rest == [] || !IsDigit(rest[0])
    ensures ReadInt(d + rest) == IntFrom(DigitsValue(d) as int, rest)
  {
    var s := d + rest;
    ReadDigitsOf(d, rest);
    assert IsDigit(s[0]);
    NoSpaceFirst(s);
  }

  /** A minus sign, the digits of `-i`, then a non-digit. */
  lemma {:induction false} ReadNegative(i: int, rest: string)
    requires i < 0
    requires rest == [] || !IsDigit(rest[0])
    ensures ReadInt(['-'] + (DecimalDigits(-i) + rest)) == IntFrom(i, rest)
  {
    var d := DecimalDigits(-i);
    var s := ['-'] + (d + rest);
    ReadDigitsOf(d, rest);
    DecimalDigitsRoundTrip(-i);
    NoSpaceFirst(s);
    assert s[1..] == d + rest;
    assert ReadDigits(s[1..]) == Some((-i, rest));
  }

  /** `>>` reads back the number `<<` wrote, and stops right after it, when an
      `int` can hold it; otherwise it saturates. */
  lemma {:induction false} ReadIntDecimal(i: int, rest: string)
    requires rest == [] || !IsDigit(rest[0])
    ensures ReadInt(Decimal(i) + rest) == IntFrom(i, rest)
  {
    if i < 0 {
      ReadBackNegative(i, rest);
    } else {
      ReadBackNonNegative(i, rest);
    }
  }

  lemma {:induction false} ReadBackNegative(i: int, rest: string)
    requires i < 0
    requires rest == [] || !IsDigit(rest[0])
    ensures ReadInt(Decimal(i) + rest) == IntFrom(i, rest)
  {
    ReadNegative(i, rest);
    MinusLayout(i, rest);
  }

  lemma {:induction false} ReadBackNonNegative(i: int, rest: string)
    requires i >= 0
    requires rest == [] || !IsDigit(rest[0])
    ensures ReadInt(Decimal(i) + rest) == IntFrom(i, rest)
  {
    DecimalDigitsRoundTrip(i);
    ReadUnsigned(DecimalDigits(i), rest);
  }

  lemma {:induction false} MinusLayout(i: int, rest: string)
    requires i < 0
    ensures Decimal(i) + rest == ['-'] + (DecimalDigits(-i) + rest)
  {
  }

  /** What a re-imported line gives: a line `exportData` wrote parses back to
      the same book, as long as the title and author hold no `"` and the ISBN
      and category name hold no comma. The category comes back with the
      quotes `exportData` put around it, because `import` reads that field up
      to the comma without looking for quotes. A year or total no `int`
      holds makes the rest of the line unreadable; an available count no
      `int` holds comes back as the nearest `int`. */
  lemma {:induction false} RecordRoundTrip(title: string, author: string, isbn: string, year: int,
                        category: string, total: int, available: int)
    requires '"' !in title && '"' !in author
    requires ',' !in isbn && ',' !in category
    ensures ParseLine(RecordLine(title, author, isbn, year, category, total, available))
         == if InInt(year) && InInt(total)
            then Parsed(Fields(title, author, isbn, year, Quoted(category), total, Clamp(available)))
            else Undefined
  {
    var t4 := Comma(isbn, Comma(Decimal(year), Comma(Quoted(category), Comma(Decimal(total), Decimal(available)))));
    QuotedTaken(title, Comma(Quoted(author), t4));
    QuotedTaken(author, t4);
    RestRoundTrip(Fields(title, author, isbn, year, Quoted(category), total, available),
                  Fields(title, author, "", 0, "", 0, 0), category);
  }

  /** The fields after the author come back from the reads after the author,
      one read at a time. */
  lemma {:induction false} RestRoundTrip(f: Fields, g: Fields, category: string)
    requires ',' !in f.isbn && ',' !in category && f.category == Quoted(category)
    requires g.title == f.title && g.author == f.author
    ensures ReadIsbn(g, Comma(f.isbn, Comma(Decimal(f.year), Comma(f.category,
              Comma(Decimal(f.total), Decimal(f.available))))))
         == if InInt(f.year) && InInt(f.total) then Parsed(f.(available := Clamp(f.available))) else Undefined
  {
    var t1 := Comma(f.category, Comma(Decimal(f.total), Decimal(f.available)));
    FieldThenComma(f.isbn, Comma(Decimal(f.year), t1));
    NumberThenComma(f.year, t1);
    if InInt(f.year) {
      QuotedNoComma(category);
      CountsBack(g.(isbn := f.isbn, year := f.year), f.category, f.total, f.available);
      assert g.(isbn := f.isbn, year := f.year, category := f.category, total := f.total,
                available := Clamp(f.available)) == f.(available := Clamp(f.available));
    }
  }

  /** The category and the two counts come back, the available count
      saturated; a total no `int` holds leaves the available count unread. */
  lemma {:induction false} CountsBack(g: Fields, category: string, total: int, available: int)
    requires ',' !in category
    ensures ReadCategory(g, Comma(category, Comma(Decimal(total), Decimal(available))))
         == if InInt(total) then Parsed(g.(category := category, total := total, available := Clamp(available)))
            else Undefined
  {
    FieldThenComma(category, Comma(Decimal(total), Decimal(available)));
    NumberThenComma(total, Decimal(available));
    if InInt(total) {
      ReadIntDecimal(available, []);
      assert Decimal(available) + [] == Decimal(available);
    }
  }

  /** A comma-free field and its comma: `find` stops at that comma. */
  lemma {:induction false} FieldThenComma(x: string, b: string)
    requires ',' !in x
    ensures Find(Comma(x, b), ',') == Some(|x|)
    ensures Comma(x, b)[..|x|] == x && Comma(x, b)[|x| + 1..] == b
  {
    var l := Comma(x, b);
    assert l[..|x|] == x;
    FindFirst(l, ',', |x|);
  }

  /** A number and its comma: `>>` stops at the comma, `ignore` skips it. */
  lemma {:induction false} NumberThenComma(i: int, b: string)
    ensures ReadInt(Comma(Decimal(i), b)) == IntFrom(i, [','] + b)
    ensures ([','] + b)[1..] == b
  {
    assert Comma(Decimal(i), b) == Decimal(i) + ([','] + b);
    ReadIntDecimal(i, [','] + b);
  }

  /** Quoting adds no comma. */
  lemma {:induction false} QuotedNoComma(s: string)
    requires ',' !in s
    ensures ',' !in Quoted(s)
  {
    EscapedKeeps(s, ',');
  }

  /** Escaping adds only quotes. */
  lemma {:induction false} EscapedKeeps(s: string, c: char)
    requires c != '"' && c !in s
    ensures c !in Escaped(s)
    decreases |s|
  {
    if s != [] {
      EscapedKeeps(s[1..], c);
    }
  }
}
