/**
 * The CSV serialiser of the report endpoint, and a reader for one record in
 * the format of section 2 of RFC 4180 against which it is judged. The
 * serialiser as written quotes a string that contains a comma but does not
 * double the quotes inside it, which that format requires; `FieldRfc` is the
 * corrected field encoding, and the report route uses it.
 */
module Csv {
  import opened Wrappers
  import opened Text

  /** A value of a report row, as JavaScript holds it. */
  datatype Cell = Str(s: string) | Num(n: int) | Null | Undefined

  /** A plain object: its keys in insertion order with their values. */
  type Record = seq<(string, Cell)>

  /** `Object.keys(obj)`. */
  function Keys(r: Record): (ks: seq<string>)
    ensures |ks| == |r| && forall i :: 0 <= i < |r| ==> ks[i] == r[i].0
  {
    seq(|r|, i requires 0 <= i < |r| => r[i].0)
  }

  /** `obj[key]`: the value of the first entry with that key, `undefined` when there is none. */
  function Get(r: Record, key: string): (c: Cell)
    ensures (forall i :: 0 <= i < |r| ==> r[i].0 != key) ==> c == Undefined
    ensures forall i :: 0 <= i < |r| && r[i].0 == key && (forall j :: 0 <= j < i ==> r[j].0 != key) ==> c == r[i].1
    ensures c == Undefined || exists i :: 0 <= i < |r| && r[i] == (key, c)
  {
    if |r| == 0 then Undefined
    else if r[0].0 == key then r[0].1
    else
      var rest := r[1..];
      var c := Get(rest, key);
      assert forall i :: 0 <= i < |rest| ==> rest[i] == r[i + 1];
      c
  }

  /** How `join` renders a value: strings as they are, numbers in decimal, null and undefined as nothing. */
  function Render(c: Cell): (s: string)
    ensures c.Str? ==> s == c.s
    ensures c.Null? || c.Undefined? ==> s == ""
  {
    match c
    case Str(s) => s
    case Num(n) => IntToString(n)
    case _ => ""
  }

  /** A string with a comma is wrapped in quotes, as written: quotes inside it stay single. */
  function FieldAsWrittenText(v: string): string {
    if ',' in v then "\"" + v + "\"" else v
  }

  /**
   * How a string value is quoted: as `convertToCSV` writes it, or as section 2
   * of RFC 4180 requires. The report route uses the second.
   */
  datatype Quoting = AsWritten | Rfc4180

  /** The field written for a value: only strings are ever quoted. */
  function Field(q: Quoting, c: Cell): string {
    if !c.Str? then Render(c)
    else if q == AsWritten then FieldAsWrittenText(c.s)
    else FieldRfc(c.s)
  }

  /** The fields of one row, in the order of the headers. */
  function RowFields(q: Quoting, headers: seq<string>, r: Record): (fs: seq<string>)
    ensures |fs| == |headers|
    ensures forall i :: 0 <= i < |headers| ==> fs[i] == Field(q, Get(r, headers[i]))
  {
    seq(|headers|, i requires 0 <= i < |headers| => Field(q, Get(r, headers[i])))
  }

  /** The lines of the document: the first row's keys, then one line per row. */
  function Lines(q: Quoting, data: seq<Record>): (ls: seq<string>)
    requires |data| >= 1
    ensures |ls| == |data| + 1 && ls[0] == Join(Keys(data[0]), ",")
    ensures forall i :: 0 <= i < |data| ==> ls[i + 1] == Join(RowFields(q, Keys(data[0]), data[i]), ",")
  {
    [Join(Keys(data[0]), ",")] + seq(|data|, i requires 0 <= i < |data| => Join(RowFields(q, Keys(data[0]), data[i]), ","))
  }

  /** `convertToCSV(data)`: nothing for no rows, else the lines joined by line feeds. */
  function ConvertToCsv(q: Quoting, data: seq<Record>): (out: string)
    ensures |data| == 0 ==> out == ""
  {
    if |data| == 0 then "" else Join(Lines(q, data), "\n")
  }

  // ---------------------------------------------------------------------------
  // One record as section 2 of RFC 4180 reads it.

  /** After an opening quote: two quotes stand for one, a lone quote closes the field. */
  function ReadQuoted(s: string, acc: string): (r: Option<(string, string)>)
    decreases |s|
    ensures r.Some? ==> |r.value.1| < |s|
  {
    if |s| == 0 then None
    else if s[0] == '"' then
      if |s| >= 2 && s[1] == '"' then ReadQuoted(s[2..], acc + "\"")
      else Some((acc, s[1..]))
    else ReadQuoted(s[1..], acc + [s[0]])
  }

  /** An unquoted field runs to the next comma and may hold no quote. */
  function ReadPlain(s: string, acc: string): (r: Option<(string, string)>)
    ensures r.Some? ==> |r.value.1| <= |s| && (r.value.1 == "" || r.value.1[0] == ',')
  {
    if |s| == 0 || s[0] == ',' then Some((acc, s))
    else if s[0] == '"' then None
    else ReadPlain(s[1..], acc + [s[0]])
  }

  /** One field and what follows it. */
  function ReadField(s: string): (r: Option<(string, string)>)
    ensures r.Some? ==> |r.value.1| <= |s|
  {
    if |s| > 0 && s[0] == '"' then ReadQuoted(s[1..], "") else ReadPlain(s, "")
  }

  /** A record: fields separated by commas; `None` when it is malformed. */
  function ParseRecord(s: string): Option<seq<string>>
    decreases |s|
  {
    match ReadField(s)
    case None => None
    case Some((v, rest)) =>
      if rest == "" then Some([v])
      else if rest[0] != ',' then None
      else
        match ParseRecord(rest[1..])
        case None => None
        case Some(vs) => Some([v] + vs)
  }

  // ---------------------------------------------------------------------------
  // The corrected field encoding.

  /** Every quote written twice. */
  function Double(v: string): (d: string)
    ensures '"' !in v ==> d == v
  {
    if |v| == 0 then ""
    else (if v[0] == '"' then "\"\"" else [v[0]]) + Double(v[1..])
  }

  predicate NeedsQuotes(v: string) {
    ',' in v || '"' in v || '\n' in v || '\r' in v
  }

  /** A field as section 2 of RFC 4180 writes it: quoted, with quotes doubled, when it must be. */
  function FieldRfc(v: string): string {
    if NeedsQuotes(v) then "\"" + Double(v) + "\"" else v
  }

  /** `f` is a field that reads back as `v`: quoted with quotes doubled, or bare and free of commas and quotes. */
  predicate Encodes(f: string, v: string) {
    f == "\"" + Double(v) + "\"" || (f == v && ',' !in v && '"' !in v)
  }

  /** What may follow a field: the end of the record or a comma. */
  predicate FieldEnd(rest: string) {
    rest == "" || rest[0] == ','
  }

  lemma {:induction false} ReadQuotedDouble(v: string, rest: string, acc: string)
    requires FieldEnd(rest)
    ensures ReadQuoted(Double(v) + "\"" + rest, acc) == Some((acc + v, rest))
  {
    var q := "\"" + rest;
    assert Double(v) + "\"" + rest == Double(v) + q;
    if |v| == 0 {
      assert Double(v) + q == q;
      ReadQuotedClose(rest, acc);
      assert acc + v == acc;
    } else {
      var t := Double(v[1..]) + q;
      assert Double(v[1..]) + "\"" + rest == t;
      ReadQuotedDouble(v[1..], rest, acc + [v[0]]);
      DoubleSplit(v, q);
      if v[0] == '"' {
        ReadQuotedQuote(t, acc);
        assert acc + "\"" == acc + [v[0]];
      } else {
        ReadQuotedChar(v[0], t, acc);
      }
      assert acc + [v[0]] + v[1..] == acc + v;
    }
  }

  /** The encoding of a non-empty value: its first character's, then the rest's. */
  lemma DoubleSplit(v: string, tail: string)
    requires |v| > 0
    ensures Double(v) + tail == (if v[0] == '"' then "\"\"" else [v[0]]) + (Double(v[1..]) + tail)
  {
  }

  /** A closing quote followed by the end of the field ends a quoted field. */
  lemma ReadQuotedClose(rest: string, acc: string)
    requires FieldEnd(rest)
    ensures ReadQuoted("\"" + rest, acc) == Some((acc, rest))
  {
    assert ("\"" + rest)[1..] == rest;
  }

  /** Two quotes inside a quoted field read as one. */
  lemma ReadQuotedQuote(t: string, acc: string)
    ensures ReadQuoted("\"\"" + t, acc) == ReadQuoted(t, acc + "\"")
  {
    assert ("\"\"" + t)[2..] == t;
  }

  /** Any other character inside a quoted field reads as itself. */
  lemma ReadQuotedChar(c: char, t: string, acc: string)
    requires c != '"'
    ensures ReadQuoted([c] + t, acc) == ReadQuoted(t, acc + [c])
  {
    assert ([c] + t)[1..] == t;
  }

  lemma {:induction false} ReadPlainBare(v: string, rest: string, acc: string)
    requires ',' !in v && '"' !in v && FieldEnd(rest)
    ensures ReadPlain(v + rest, acc) == Some((acc + v, rest))
  {
    if |v| == 0 {
      assert v + rest == rest;
      assert acc + v == acc;
    } else {
      ReadPlainBare(v[1..], rest, acc + [v[0]]);
      assert (v + rest)[1..] == v[1..] + rest;
      assert acc + [v[0]] + v[1..] == acc + v;
    }
  }

  /** A field that encodes `v`, followed by the end of the record or a comma, reads as `v`. */
  lemma ReadEncoded(f: string, v: string, rest: string)
    requires Encodes(f, v) && FieldEnd(rest)
    ensures ReadField(f + rest) == Some((v, rest))
  {
    if f == "\"" + Double(v) + "\"" {
      ReadQuotedDouble(v, rest, "");
      assert (f + rest)[0] == '"';
      assert (f + rest)[1..] == Double(v) + "\"" + rest;
      assert "" + v == v;
    } else {
      ReadPlainBare(v, rest, "");
      assert "" + v == v;
      if |v| > 0 {
        assert (f + rest)[0] == v[0];
      } else {
        assert f + rest == rest;
      }
    }
  }

  /** Fields that encode values, joined by commas, read back as those values. */
  lemma {:induction false} ParseJoined(fs: seq<string>, vs: seq<string>)
    requires |fs| == |vs| >= 1
    requires forall i :: 0 <= i < |fs| ==> Encodes(fs[i], vs[i])
    ensures ParseRecord(Join(fs, ",")) == Some(vs)
  {
    if |fs| == 1 {
      assert fs[0] + "" == fs[0];
      ReadEncoded(fs[0], vs[0], "");
      assert vs == [vs[0]];
    } else {
      var tail := Join(fs[1..], ",");
      ParseJoined(fs[1..], vs[1..]);
      ReadEncoded(fs[0], vs[0], "," + tail);
      assert Join(fs, ",") == fs[0] + ("," + tail);
      assert ("," + tail)[1..] == tail;
      assert [vs[0]] + vs[1..] == vs;
    }
  }

  lemma DoubleEncodes(v: string)
    ensures Encodes(FieldRfc(v), v)
  {
  }

  /** The corrected encoding reads back as the values it was given, whatever they hold. */
  lemma FieldRfcRoundTrip(vs: seq<string>)
    requires |vs| >= 1
    ensures ParseRecord(Join(seq(|vs|, i requires 0 <= i < |vs| => FieldRfc(vs[i])), ",")) == Some(vs)
  {
    var fs := seq(|vs|, i requires 0 <= i < |vs| => FieldRfc(vs[i]));
    ParseJoined(fs, vs);
  }

  /** As written, a field reads back correctly as long as it holds no quote. */
  lemma AsWrittenRoundTrip(vs: seq<string>)
    requires |vs| >= 1
    requires forall i :: 0 <= i < |vs| ==> '"' !in vs[i]
    ensures ParseRecord(Join(seq(|vs|, i requires 0 <= i < |vs| => FieldAsWrittenText(vs[i])), ",")) == Some(vs)
  {
    var fs := seq(|vs|, i requires 0 <= i < |vs| => FieldAsWrittenText(vs[i]));
    ParseJoined(fs, vs);
  }

  /** As written, the value `a,"b` is written as `"a,"b"`, which is not a well-formed record. */
  lemma AsWrittenQuoteBreaks()
    ensures FieldAsWrittenText("a,\"b") == "\"a,\"b\""
    ensures ParseRecord(FieldAsWrittenText("a,\"b")) == None
  {
    var f := "\"a,\"b\"";
    assert ReadQuoted(f[1..], "") == Some(("a,", "b\"")) by {
      var s1 := "a,\"b\"";
      assert f[1..] == s1;
      assert s1[1..] == ",\"b\"" && "" + [s1[0]] == "a";
      var s2 := ",\"b\"";
      assert s2[1..] == "\"b\"" && "a" + [s2[0]] == "a,";
      var s3 := "\"b\"";
      assert s3[0] == '"' && s3[1] != '"' && s3[1..] == "b\"";
    }
  }

  /** The corrected encoding reads the same value back. */
  lemma RfcQuoteKeeps()
    ensures ParseRecord(FieldRfc("a,\"b")) == Some(["a,\"b"])
  {
    FieldRfcRoundTrip(["a,\"b"]);
    assert Join(seq(1, i requires 0 <= i < 1 => FieldRfc(["a,\"b"][i])), ",") == FieldRfc("a,\"b");
  }

  // ---------------------------------------------------------------------------
  // The whole document, as written.

  lemma {:induction false} JoinAvoids(parts: seq<string>, sep: string, c: char)
    requires c !in sep && forall i :: 0 <= i < |parts| ==> c !in parts[i]
    ensures c !in Join(parts, sep)
  {
    if |parts| > 1 {
      JoinAvoids(parts[1..], sep, c);
    }
  }

  /** A value that the encoding writes on one line and reads back: as written, no quote and no line feed; corrected, no line feed. */
  predicate SafeCell(q: Quoting, c: Cell) {
    c.Str? ==> '\n' !in c.s && (q == AsWritten ==> '"' !in c.s)
  }

  /** A header that needs no quoting. */
  predicate SafeHeader(h: string) {
    ',' !in h && '"' !in h && '\n' !in h
  }

  /** The values of a row as they are shown: one per header, in header order. */
  function Shown(headers: seq<string>, r: Record): (vs: seq<string>)
    ensures |vs| == |headers|
  {
    seq(|headers|, i requires 0 <= i < |headers| => Render(Get(r, headers[i])))
  }

  /** Doubling quotes adds no other character. */
  lemma {:induction false} DoubleAvoids(v: string, c: char)
    requires c != '"' && c !in v
    ensures c !in Double(v)
  {
    if |v| > 0 {
      DoubleAvoids(v[1..], c);
    }
  }

  lemma FieldOfSafeCell(q: Quoting, c: Cell)
    requires SafeCell(q, c)
    ensures Encodes(Field(q, c), Render(c)) && '\n' !in Field(q, c)
  {
    if c.Num? {
      assert forall i :: 0 <= i < |IntToString(c.n)| ==> IntToString(c.n)[i] != '\n' && IntToString(c.n)[i] != ',';
    } else if c.Str? && q == Rfc4180 {
      DoubleEncodes(c.s);
      DoubleAvoids(c.s, '\n');
    }
  }

  /**
   * When no header needs quoting and every value is safe for the encoding,
   * the output splits into the header line and one line per row, and each line
   * reads back as the headers and the values shown for that row. Corrected,
   * only line feeds inside values stand in the way; as written, quotes do too.
   */
  lemma DocumentReadsBack(q: Quoting, data: seq<Record>)
    requires |data| >= 1 && |data[0]| >= 1
    requires forall i :: 0 <= i < |data[0]| ==> SafeHeader(data[0][i].0)
    requires forall i, j :: 0 <= i < |data| && 0 <= j < |data[i]| ==> SafeCell(q, data[i][j].1)
    ensures var lines := Split(ConvertToCsv(q, data), '\n');
      && |lines| == |data| + 1
      && ParseRecord(lines[0]) == Some(Keys(data[0]))
      && forall i :: 0 <= i < |data| ==> ParseRecord(lines[i + 1]) == Some(Shown(Keys(data[0]), data[i]))
  {
    var headers := Keys(data[0]);
    var ls := Lines(q, data);
    forall i | 0 <= i < |data| ensures ParseRecord(ls[i + 1]) == Some(Shown(headers, data[i])) && '\n' !in ls[i + 1] {
      var fs := RowFields(q, headers, data[i]);
      forall k | 0 <= k < |headers| ensures Encodes(fs[k], Shown(headers, data[i])[k]) && '\n' !in fs[k] {
        var c := Get(data[i], headers[k]);
        if c != Undefined {
          var j :| 0 <= j < |data[i]| && data[i][j] == (headers[k], c);
          assert SafeCell(q, data[i][j].1);
        }
        FieldOfSafeCell(q, c);
      }
      ParseJoined(fs, Shown(headers, data[i]));
      JoinAvoids(fs, ",", '\n');
    }
    forall k | 0 <= k < |headers| ensures Encodes(headers[k], headers[k]) && '\n' !in headers[k] {
      assert SafeHeader(data[0][k].0);
    }
    ParseJoined(headers, headers);
    JoinAvoids(headers, ",", '\n');
    assert forall i :: 0 <= i < |ls| ==> '\n' !in ls[i] by {
      forall i | 0 <= i < |ls| ensures '\n' !in ls[i] {
        if i > 0 { assert ls[i] == ls[(i - 1) + 1]; }
      }
    }
    SplitJoin(ls, '\n');
  }

  /** A report of one row and one column is its key and its field on two lines. */
  lemma OneCellLines(q: Quoting, key: string, c: Cell)
    requires '\n' !in key && '\n' !in Field(q, c)
    ensures Split(ConvertToCsv(q, [[(key, c)]]), '\n') == [key, Field(q, c)]
  {
    var data: seq<Record> := [[(key, c)]];
    var ls := Lines(q, data);
    assert Keys(data[0]) == [key];
    assert RowFields(q, [key], data[0]) == [Field(q, c)];
    assert ls == [key, Field(q, c)];
    SplitJoin(ls, '\n');
  }

  /** As written, a one-column report holding `a,"b` does not read back; corrected, it does. */
  lemma QuotedValueDocument(v: string, data: seq<Record>)
    requires v == "a,\"b" && data == [[("Details", Str(v))]]
    ensures var lines := Split(ConvertToCsv(AsWritten, data), '\n');
      |lines| == 2 && ParseRecord(lines[1]) == None
    ensures var lines := Split(ConvertToCsv(Rfc4180, data), '\n');
      |lines| == 2 && ParseRecord(lines[1]) == Some([v])
  {
    QuotedValueAsWritten(v, data);
    QuotedValueCorrected(v, data);
  }

  /** The document as written: two lines, the second not a well-formed record. */
  lemma QuotedValueAsWritten(v: string, data: seq<Record>)
    requires v == "a,\"b" && data == [[("Details", Str(v))]]
    ensures var lines := Split(ConvertToCsv(AsWritten, data), '\n');
      |lines| == 2 && ParseRecord(lines[1]) == None
  {
    AsWrittenQuoteBreaks();
    assert '\n' !in "Details";
    assert '\n' !in FieldAsWrittenText(v);
    OneCellLines(AsWritten, "Details", Str(v));
  }

  /** The corrected document: two lines, the second reading back as the value. */
  lemma QuotedValueCorrected(v: string, data: seq<Record>)
    requires v == "a,\"b" && data == [[("Details", Str(v))]]
    ensures var lines := Split(ConvertToCsv(Rfc4180, data), '\n');
      |lines| == 2 && ParseRecord(lines[1]) == Some([v])
  {
    assert '\n' !in "Details";
    DoubleAvoids(v, '\n');
    OneCellLines(Rfc4180, "Details", Str(v));
    RfcQuoteKeeps();
  }
}
