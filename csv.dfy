/** The CSV upload handler of components/DashboardBuilder.tsx (`reader.onload`
    inside `handleFileUpload`): the text is cut at '\n', the first line gives
    the column names (cut at ',' and trimmed), every later line that is not
    blank gives one row, and a row maps each column name to its cell coerced
    with `Number(v) || v`. */
module Csv {
  import opened Wrappers
  import opened Text

  /** What `Number(...)` yields, restricted to integers. */
  datatype JsNumber = NaN | Finite(value: int)

  /** A cell of a parsed row: a number, the original text, or `undefined` for
      a column past the end of the line. */
  datatype Value = Num(n: int) | Str(s: string) | Undefined

  type Row = map<string, Value>

  /** `Number(s)` on the strings the model covers: white space around the
      literal is ignored, the empty (or all-space) string is 0, and an optional
      sign followed by decimal digits is that integer; every other string is
      NaN here. */
  function ToNumber(s: string): JsNumber {
    var t := Trim(s);
    if t == "" then Finite(0)
    else if (t[0] == '-' || t[0] == '+') && |t| > 1 && AllDigits(t[1..]) then
      var magnitude: int := DigitsValue(t[1..]);
      Finite(if t[0] == '-' then -magnitude else magnitude)
    else if AllDigits(t) then Finite(DigitsValue(t))
    else NaN
  }

  /** `Number(v) || v`, where `v` is `values[index]` and may be undefined:
      a non-zero number wins; NaN and 0 are falsy, so the cell keeps the
      original, untrimmed text (or stays undefined). */
  function Coerce(v: Option<string>): (r: Value)
    ensures r.Undefined? <==> v.None?
    ensures r.Num? <==> v.Some? && ToNumber(v.value).Finite? && ToNumber(v.value).value != 0
    ensures r.Num? ==> ToNumber(v.value) == Finite(r.n)
    ensures r.Str? ==> r.s == v.value
  {
    match v
    case None => Undefined
    case Some(text) =>
      match ToNumber(text)
      case Finite(n) => if n != 0 then Num(n) else Str(text)
      case NaN => Str(text)
  }

  /** `values[i]`, undefined past the end. */
  function At(values: seq<string>, i: nat): Option<string> {
    if i < |values| then Some(values[i]) else None
  }

  /** The last position of `h` among the headers. */
  function LastIndex(headers: seq<string>, h: string): (r: nat)
    requires h in headers
    ensures r < |headers| && headers[r] == h
    ensures forall k :: r < k < |headers| ==> headers[k] != h
  {
    if headers[|headers| - 1] == h then |headers| - 1
    else
      assert h in headers[..|headers| - 1] by {
        var k :| 0 <= k < |headers| && headers[k] == h;
        assert headers[..|headers| - 1][k] == h;
      }
      LastIndex(headers[..|headers| - 1], h)
  }

  /** The one key an assignment to a fresh object literal does not create:
      `row["__proto__"] = v` calls the prototype setter of `Object.prototype`,
      which ignores numbers, strings and `undefined`. */
  const ProtoKey: string := "__proto__"

  /** The row the loop below builds: every header but `__proto__` is a key,
      and its value is the coerced cell at the header's LAST position,
      because a repeated header is assigned again later in the loop. */
  function RowOf(headers: seq<string>, values: seq<string>): Row {
    map h | h in headers && h != ProtoKey :: Coerce(At(values, LastIndex(headers, h)))
  }

  /** One more header: it takes the cell at its own position, and the
      earlier headers keep theirs unless they are the same name; a
      `__proto__` header adds nothing. */
  lemma {:induction false} RowOfSnoc(headers: seq<string>, x: string, values: seq<string>)
    ensures RowOf(headers + [x], values) ==
      if x == ProtoKey then RowOf(headers, values)
      else RowOf(headers, values)[x := Coerce(At(values, |headers|))]
  {
    var hs := headers + [x];
    var left, prev := RowOf(hs, values), RowOf(headers, values);
    var right := if x == ProtoKey then prev else prev[x := Coerce(At(values, |headers|))];
    forall h
      ensures h in left <==> h in right
    {
      RowOfKeys(hs, values, h);
      RowOfKeys(headers, values, h);
    }
    forall h | h in left
      ensures left[h] == right[h]
    {
      LastIndexSnoc(headers, x, h);
    }
  }

  /** The last position of a header among one more header. */
  lemma LastIndexSnoc(headers: seq<string>, x: string, h: string)
    requires h in headers + [x]
    ensures h != x ==> h in headers
    ensures LastIndex(headers + [x], h) == if h == x then |headers| else LastIndex(headers, h)
  {
    var hs := headers + [x];
    assert hs[..|hs| - 1] == headers;
    if h != x {
      var k :| 0 <= k < |hs| && hs[k] == h;
      assert headers[k] == h;
    }
  }

  /** The keys of a row are exactly the headers other than `__proto__`. */
  lemma RowOfKeys(headers: seq<string>, values: seq<string>, h: string)
    ensures h in RowOf(headers, values) <==> h in headers && h != ProtoKey
  {
  }

  /** `headers.forEach((header, index) => { row[header] = Number(values[index]) || values[index]; })` */
  method BuildRow(headers: seq<string>, values: seq<string>) returns (row: Row)
    ensures row == RowOf(headers, values)
  {
    row := map[];
    var index := 0;
    while index < |headers|
      invariant 0 <= index <= |headers|
      invariant row == RowOf(headers[..index], values)
    {
      RowOfSnoc(headers[..index], headers[index], values);
      assert headers[..index + 1] == headers[..index] + [headers[index]];
      if headers[index] != ProtoKey {
        row := row[headers[index] := Coerce(At(values, index))];
      }
      index := index + 1;
    }
    assert headers[..index] == headers;
  }

  /** `.map(header => header.trim())` */
  function TrimAll(pieces: seq<string>): (r: seq<string>)
    ensures |r| == |pieces|
  {
    if pieces == [] then [] else [Trim(pieces[0])] + TrimAll(pieces[1..])
  }

  /** `.filter(line => line.trim())`: the lines that are not all white space,
      in their order. */
  function NonBlank(lines: seq<string>): seq<string> {
    if lines == [] then []
    else if Trim(lines[0]) != "" then [lines[0]] + NonBlank(lines[1..])
    else NonBlank(lines[1..])
  }

  function Columns(text: string): seq<string> {
    TrimAll(Split(Split(text, '\n')[0], ','))
  }

  function DataLines(text: string): seq<string> {
    NonBlank(Split(text, '\n')[1..])
  }

  function RowsOf(headers: seq<string>, lines: seq<string>): seq<Row> {
    seq(|lines|, k requires 0 <= k < |lines| => RowOf(headers, Split(lines[k], ',')))
  }

  lemma RowsOfStep(headers: seq<string>, lines: seq<string>, i: nat)
    requires i < |lines|
    ensures RowsOf(headers, lines[..i + 1]) == RowsOf(headers, lines[..i]) + [RowOf(headers, Split(lines[i], ','))]
  {
    var left, right := RowsOf(headers, lines[..i + 1]), RowsOf(headers, lines[..i]) + [RowOf(headers, Split(lines[i], ','))];
    assert |left| == |right|;
    forall k | 0 <= k < |left|
      ensures left[k] == right[k]
    {
    }
  }

  /** What one upload yields: the columns and the parsed data rows. */
  datatype Table = Table(columns: seq<string>, rows: seq<Row>)

  function Parse(text: string): Table {
    Table(Columns(text), RowsOf(Columns(text), DataLines(text)))
  }

  /** `dataLines.map(line => { ... })`: one row per data line, in order. */
  method BuildRows(headers: seq<string>, lines: seq<string>) returns (rows: seq<Row>)
    ensures rows == RowsOf(headers, lines)
  {
    rows := [];
    for i := 0 to |lines|
      invariant rows == RowsOf(headers, lines[..i])
    {
      var row := BuildRow(headers, Split(lines[i], ','));
      RowsOfStep(headers, lines, i);
      rows := rows + [row];
    }
    assert lines[..|lines|] == lines;
  }

  /** The body of `reader.onload` up to the state updates. */
  method Ingest(text: string) returns (t: Table)
    ensures t == Parse(text)
  {
    var lines := Split(text, '\n');
    var headers := TrimAll(Split(lines[0], ','));
    var rows := BuildRows(headers, NonBlank(lines[1..]));
    t := Table(headers, rows);
  }

  // ---------------------------------------------------------------------
  // Properties of the parse

  /** An empty file gives the single column "" and no rows. */
  lemma ParseEmpty()
    ensures Parse("") == Table([""], [])
  {
    assert Split("", '\n') == [""];
    assert Split("", ',') == [""];
    assert Trim("") == "";
  }

  /** The first line gives the columns and the lines after it the data, whatever
      the rest of the file holds. */
  lemma {:induction false} ParseLines(header: string, body: string)
    requires '\n' !in header
    ensures Parse(header + "\n" + body).columns == TrimAll(Split(header, ','))
    ensures DataLines(header + "\n" + body) == NonBlank(Split(body, '\n'))
  {
    SplitAppend(header, body, '\n');
    SplitNoSep(header, '\n');
    assert header + "\n" + body == header + ['\n'] + body;
  }

  /** A header line without a line break and nothing else gives no rows. */
  lemma {:induction false} HeaderOnly(header: string)
    requires '\n' !in header
    ensures Parse(header) == Table(TrimAll(Split(header, ',')), [])
  {
    SplitNoSep(header, '\n');
  }

  /** Each column is the trimmed piece of the first line at its position. */
  lemma {:induction false} TrimAllAt(pieces: seq<string>, i: nat)
    requires i < |pieces|
    ensures TrimAll(pieces)[i] == Trim(pieces[i])
  {
    if i > 0 {
      TrimAllAt(pieces[1..], i - 1);
    }
  }

  /** There is one column per ',' plus one, each a trimmed piece of the first
      line, so no column starts or ends with white space. */
  lemma ColumnsOfFirstLine(text: string)
    ensures |Columns(text)| == Count(Split(text, '\n')[0], ',') + 1
    ensures forall i :: 0 <= i < |Columns(text)| ==>
      Columns(text)[i] == Trim(Split(Split(text, '\n')[0], ',')[i]) && Trim(Columns(text)[i]) == Columns(text)[i]
  {
    var pieces := Split(Split(text, '\n')[0], ',');
    SplitPieces(Split(text, '\n')[0], ',');
    forall i | 0 <= i < |pieces|
      ensures Columns(text)[i] == Trim(pieces[i]) && Trim(Columns(text)[i]) == Columns(text)[i]
    {
      TrimAllAt(pieces, i);
      TrimIdempotent(pieces[i]);
    }
  }

  /** The filter keeps exactly the lines that are not all white space. */
  lemma {:induction false} NonBlankMember(lines: seq<string>, line: string)
    ensures line in NonBlank(lines) <==> line in lines && !AllSpace(line)
  {
    TrimEmpty(line);
    if lines != [] {
      NonBlankMember(lines[1..], line);
      TrimEmpty(lines[0]);
      assert line in lines <==> line == lines[0] || line in lines[1..];
    }
  }

  /** The filter keeps the order: filtering a concatenation filters each part. */
  lemma {:induction false} NonBlankAppend(a: seq<string>, b: seq<string>)
    ensures NonBlank(a + b) == NonBlank(a) + NonBlank(b)
  {
    if a != [] {
      NonBlankAppend(a[1..], b);
      assert (a + b)[1..] == a[1..] + b;
    } else {
      assert a + b == b;
    }
  }

  /** Lines with content all survive the filter, unchanged and in order. */
  lemma {:induction false} NonBlankKeepsContent(lines: seq<string>)
    requires forall k :: 0 <= k < |lines| ==> !AllSpace(lines[k])
    ensures NonBlank(lines) == lines
  {
    if lines != [] {
      TrimEmpty(lines[0]);
      NonBlankKeepsContent(lines[1..]);
    }
  }

  /** Blank lines, such as the empty piece after a final line break, give no
      rows. */
  lemma {:induction false} NonBlankDropsBlank(lines: seq<string>)
    requires forall k :: 0 <= k < |lines| ==> AllSpace(lines[k])
    ensures NonBlank(lines) == []
  {
    if lines != [] {
      TrimEmpty(lines[0]);
      NonBlankDropsBlank(lines[1..]);
    }
  }

  /** A header that does not appear again takes the cell at its own position
      (`__proto__` is never a key). */
  lemma RowOfCell(headers: seq<string>, values: seq<string>, i: nat)
    requires i < |headers|
    requires forall k :: i < k < |headers| ==> headers[k] != headers[i]
    ensures headers[i] in RowOf(headers, values) <==> headers[i] != ProtoKey
    ensures headers[i] != ProtoKey ==> RowOf(headers, values)[headers[i]] == Coerce(At(values, i))
  {
    var r := LastIndex(headers, headers[i]);
    assert !(r < i) && !(r > i);
  }

  /** Fields past the last header are ignored. */
  lemma RowOfDropsExtra(headers: seq<string>, values: seq<string>, extra: seq<string>)
    ensures RowOf(headers, values + extra) == RowOf(headers, values) || |values| < |headers|
  {
    if |values| >= |headers| {
      forall h | h in headers && h != ProtoKey
        ensures At(values + extra, LastIndex(headers, h)) == At(values, LastIndex(headers, h))
      {
      }
    }
  }

  /** A short line leaves the missing cells undefined. */
  lemma RowOfShortLine(headers: seq<string>, values: seq<string>, h: string)
    requires h in headers && |values| <= LastIndex(headers, h)
    ensures h != ProtoKey ==> RowOf(headers, values)[h] == Undefined
  {
  }

  /** `Number` reads a trimmed string of digits, with or without a sign. */
  lemma ToNumberDigits(t: string, n: nat)
    requires t == NatToString(n) && Trim(t) == t
    ensures ToNumber(t) == Finite(n)
  {
    DigitsValueOfNatToString(n);
    assert !(t[0] == '-' || t[0] == '+');
  }

  lemma ToNumberMinusDigits(t: string, n: nat)
    requires t == NatToString(n) && Trim("-" + t) == "-" + t
    ensures ToNumber("-" + t) == Finite(-(n as int))
  {
    DigitsValueOfNatToString(n);
    assert ("-" + t)[1..] == t;
  }

  /** A cell holding the decimal notation of a positive integer, with any white
      space around it (such as the '\r' of a CRLF file), becomes that number. */
  lemma CoerceNumber(before: string, n: nat, after: string)
    requires n > 0 && AllSpace(before) && AllSpace(after)
    ensures Coerce(Some(before + NatToString(n) + after)) == Num(n)
  {
    var d := NatToString(n);
    TrimAround(before, d, after);
    TrimAround("", d, "");
    assert "" + d + "" == d;
    ToNumberDigits(d, n);
  }

  /** The same with a minus sign in front of the digits. */
  lemma CoerceNegative(before: string, n: nat, after: string)
    requires n > 0 && AllSpace(before) && AllSpace(after)
    ensures Coerce(Some(before + "-" + NatToString(n) + after)) == Num(-(n as int))
  {
    var d := NatToString(n);
    assert before + "-" + d + after == before + ("-" + d) + after;
    TrimAround(before, "-" + d, after);
    TrimAround("", "-" + d, "");
    assert "" + ("-" + d) + "" == "-" + d;
    ToNumberMinusDigits(d, n);
  }

  /** Zero and blank cells are falsy: they keep their text. */
  lemma CoerceFalsy(s: string)
    requires AllSpace(s) || s == "0"
    ensures Coerce(Some(s)) == Str(s)
  {
    TrimEmpty(s);
    if s == "0" {
      assert Trim(s) == "0";
      assert DigitsValue("0") == 0 by {
        assert "0"[..0] == "";
      }
    }
  }

  /** The characters a string that `Number` reads may contain besides white
      space: digits, signs, the decimal point, the exponent and radix-prefix
      letters, the hexadecimal digits, and the letters of `Infinity`. */
  predicate NumeralChar(c: char) {
    IsDigit(c) || c in "+-." || c in "aAbBcCdDeEfFxXoO" || c in "Inity"
  }

  /** A cell holding a character that no numeral contains is NaN to
      `Number`, so it stays text. */
  lemma CoerceText(s: string, k: nat)
    requires k < |s| && !IsJsSpace(s[k]) && !NumeralChar(s[k])
    ensures Coerce(Some(s)) == Str(s)
  {
    TrimKeeps(s, k);
  }
}
