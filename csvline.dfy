/** One line of delimited text: a quote-aware tokenizer in the manner of
    Python's `csv.reader` (excel dialect: doubled quotes, no escape character,
    non-strict) and a writer in the manner of `csv.writer` with minimal quoting.
    `d` is the field delimiter (the source's "terminator"), `q` the quote
    character (its "encloser"). */
module CsvLine {

  datatype ReadState = StartField | InField | InQuoted | QuoteInQuoted

  /** The reader's state machine over the rest `s` of a line, with the field being
      read and the fields finished so far. At the end of the line the current field
      is always saved (after a trailing delimiter, an empty one). */
  function Read(s: string, st: ReadState, field: string, fields: seq<string>, d: char, q: char): seq<string>
    decreases |s|
  {
    if s == [] then fields + [field]
    else
      var c := s[0];
      match st
      case StartField =>
        if c == q then Read(s[1..], InQuoted, field, fields, d, q)
        else if c == d then Read(s[1..], StartField, [], fields + [field], d, q)
        else Read(s[1..], InField, field + [c], fields, d, q)
      case InField =>
        if c == d then Read(s[1..], StartField, [], fields + [field], d, q)
        else Read(s[1..], InField, field + [c], fields, d, q)
      case InQuoted =>
        if c == q then Read(s[1..], QuoteInQuoted, field, fields, d, q)
        else Read(s[1..], InQuoted, field + [c], fields, d, q)
      case QuoteInQuoted =>
        if c == q then Read(s[1..], InQuoted, field + [q], fields, d, q)
        else if c == d then Read(s[1..], StartField, [], fields + [field], d, q)
        else Read(s[1..], InField, field + [c], fields, d, q)
  }

  /** The line without the one line terminator a text-mode file iteration leaves on it. */
  function StripEol(line: string): (s: string)
    ensures line != [] && line[|line| - 1] == '\n' ==> line == s + "\n"
    ensures !(line != [] && line[|line| - 1] == '\n') ==> s == line
  {
    if line != [] && line[|line| - 1] == '\n' then line[..|line| - 1] else line
  }

  /** The tokens of one line; an empty line has none, any other line at least one. */
  function Tokenize(line: string, d: char, q: char): (r: seq<string>)
    ensures StripEol(line) == [] <==> r == []
  {
    var s := StripEol(line);
    if s == [] then [] else ReadAtLeastOne(s, StartField, [], [], d, q); Read(s, StartField, [], [], d, q)
  }

  lemma {:induction false} ReadAtLeastOne(s: string, st: ReadState, field: string, fields: seq<string>, d: char, q: char)
    ensures |Read(s, st, field, fields, d, q)| > |fields|
    decreases |s|
  {
    if s != [] {
      var c := s[0];
      match st
      case StartField =>
        if c == q { ReadAtLeastOne(s[1..], InQuoted, field, fields, d, q); }
        else if c == d { ReadAtLeastOne(s[1..], StartField, [], fields + [field], d, q); }
        else { ReadAtLeastOne(s[1..], InField, field + [c], fields, d, q); }
      case InField =>
        if c == d { ReadAtLeastOne(s[1..], StartField, [], fields + [field], d, q); }
        else { ReadAtLeastOne(s[1..], InField, field + [c], fields, d, q); }
      case InQuoted =>
        if c == q { ReadAtLeastOne(s[1..], QuoteInQuoted, field, fields, d, q); }
        else { ReadAtLeastOne(s[1..], InQuoted, field + [c], fields, d, q); }
      case QuoteInQuoted =>
        if c == q { ReadAtLeastOne(s[1..], InQuoted, field + [q], fields, d, q); }
        else if c == d { ReadAtLeastOne(s[1..], StartField, [], fields + [field], d, q); }
        else { ReadAtLeastOne(s[1..], InField, field + [c], fields, d, q); }
    }
  }

  /** Minimal quoting: a value is enclosed when it holds the delimiter, the quote
      character or a line-terminator character. */
  predicate NeedsQuotes(v: string, d: char, q: char) {
    d in v || q in v || '\r' in v || '\n' in v
  }

  /** The value with every quote character doubled. */
  function Escape(v: string, q: char): (r: string)
    ensures |r| >= |v|
  {
    if v == [] then []
    else if v[0] == q then [q, q] + Escape(v[1..], q)
    else [v[0]] + Escape(v[1..], q)
  }

  /** One value as the writer puts it on the line. */
  function EncodeField(v: string, d: char, q: char): (r: string)
    ensures NeedsQuotes(v, d, q) ==> |r| >= 2 && r[0] == q && r[|r| - 1] == q
    ensures !NeedsQuotes(v, d, q) ==> r == v
  {
    if NeedsQuotes(v, d, q) then [q] + Escape(v, q) + [q] else v
  }

  /** The encoded values joined by the delimiter. */
  function WriteFields(vs: seq<string>, d: char, q: char): string
  {
    if vs == [] then []
    else if |vs| == 1 then EncodeField(vs[0], d, q)
    else EncodeField(vs[0], d, q) + [d] + WriteFields(vs[1..], d, q)
  }

  /** `writerow(vs)` without its line terminator: a row made of one empty value is
      written as an empty quoted field, so that it is not read back as no row. */
  function WriteRow(vs: seq<string>, d: char, q: char): string
  {
    if vs == [[]] then [q, q] else WriteFields(vs, d, q)
  }

  // ---- reading back what was written ----

  lemma {:induction false} ReadEscaped(v: string, tail: string, field: string, fields: seq<string>, d: char, q: char)
    ensures Read(Escape(v, q) + tail, InQuoted, field, fields, d, q) == Read(tail, InQuoted, field + v, fields, d, q)
    decreases |v|
  {
    var s := Escape(v, q) + tail;
    if v == [] {
      assert s == tail && field + v == field;
    } else if v[0] == q {
      var rest := Escape(v[1..], q) + tail;
      assert s == [q, q] + rest;
      assert s[0] == q && s[1..] == [q] + rest;
      assert Read(s, InQuoted, field, fields, d, q) == Read([q] + rest, QuoteInQuoted, field, fields, d, q);
      assert ([q] + rest)[0] == q && ([q] + rest)[1..] == rest;
      assert Read([q] + rest, QuoteInQuoted, field, fields, d, q) == Read(rest, InQuoted, field + [q], fields, d, q);
      ReadEscaped(v[1..], tail, field + [q], fields, d, q);
      assert field + [q] + v[1..] == field + v;
    } else {
      var rest := Escape(v[1..], q) + tail;
      assert s == [v[0]] + rest;
      assert s[0] == v[0] && s[1..] == rest;
      assert Read(s, InQuoted, field, fields, d, q) == Read(rest, InQuoted, field + [v[0]], fields, d, q);
      ReadEscaped(v[1..], tail, field + [v[0]], fields, d, q);
      assert field + [v[0]] + v[1..] == field + v;
    }
  }

  lemma {:induction false} ReadPlain(v: string, tail: string, field: string, fields: seq<string>, d: char, q: char)
    requires d !in v
    ensures Read(v + tail, InField, field, fields, d, q) == Read(tail, InField, field + v, fields, d, q)
    decreases |v|
  {
    if v == [] {
      assert v + tail == tail && field + v == field;
    } else {
      assert (v + tail)[1..] == v[1..] + tail;
      ReadPlain(v[1..], tail, field + [v[0]], fields, d, q);
      assert field + [v[0]] + v[1..] == field + v;
    }
  }

  /** A quoted value followed by `tail`, read from the start of a field: the whole
      value is the field, and reading goes on just after the closing quote. */
  lemma ReadQuotedField(v: string, tail: string, fields: seq<string>, d: char, q: char)
    requires NeedsQuotes(v, d, q)
    ensures Read(EncodeField(v, d, q) + tail, StartField, [], fields, d, q) == Read(tail, QuoteInQuoted, v, fields, d, q)
  {
    var e := Escape(v, q) + ([q] + tail);
    var s := EncodeField(v, d, q) + tail;
    assert s == [q] + e;
    assert s[0] == q && s[1..] == e;
    assert Read(s, StartField, [], fields, d, q) == Read(e, InQuoted, [], fields, d, q);
    ReadEscaped(v, [q] + tail, [], fields, d, q);
    assert [] + v == v;
    assert ([q] + tail)[0] == q && ([q] + tail)[1..] == tail;
    assert Read([q] + tail, InQuoted, v, fields, d, q) == Read(tail, QuoteInQuoted, v, fields, d, q);
  }

  /** An unquoted non-empty value followed by `tail`, read from the start of a field:
      reading goes on inside the field, which holds the whole value. */
  lemma ReadPlainField(v: string, tail: string, fields: seq<string>, d: char, q: char)
    requires !NeedsQuotes(v, d, q) && v != []
    ensures Read(EncodeField(v, d, q) + tail, StartField, [], fields, d, q) == Read(tail, InField, v, fields, d, q)
  {
    var s := v + tail;
    assert v[0] in v;
    assert s[0] == v[0] && s[1..] == v[1..] + tail;
    assert d !in v[1..] by { assert forall k :: 0 <= k < |v[1..]| ==> v[1..][k] in v; }
    assert [] + [v[0]] == [v[0]];
    assert Read(s, StartField, [], fields, d, q) == Read(s[1..], InField, [v[0]], fields, d, q);
    ReadPlain(v[1..], tail, [v[0]], fields, d, q);
    assert [v[0]] + v[1..] == v;
  }

  /** Reading the written values from the start of a field gives them back, in order. */
  lemma {:induction false} ReadFields(vs: seq<string>, fields: seq<string>, d: char, q: char)
    requires d != q && |vs| >= 1
    ensures Read(WriteFields(vs, d, q), StartField, [], fields, d, q) == fields + vs
    decreases |vs|
  {
    var v := vs[0];
    var tail := if |vs| == 1 then [] else [d] + WriteFields(vs[1..], d, q);
    assert WriteFields(vs, d, q) == EncodeField(v, d, q) + tail;
    if |vs| > 1 {
      ReadFields(vs[1..], fields + [v], d, q);
      assert fields + [v] + vs[1..] == fields + vs;
      assert tail[1..] == WriteFields(vs[1..], d, q);
    } else {
      assert vs == [v];
    }
    if NeedsQuotes(v, d, q) {
      ReadQuotedField(v, tail, fields, d, q);
    } else if v != [] {
      ReadPlainField(v, tail, fields, d, q);
    } else {
      assert EncodeField(v, d, q) + tail == tail;
    }
  }

  lemma {:induction false} WriteFieldsNonEmpty(vs: seq<string>, d: char, q: char)
    requires |vs| >= 2 || (|vs| == 1 && vs[0] != [])
    ensures WriteFields(vs, d, q) != []
  {
    if |vs| == 1 {
      assert |EncodeField(vs[0], d, q)| >= |vs[0]|;
    }
  }

  /** The last character of a written row: a quote, the delimiter, or the last
      character of the last value when that value went out unquoted. */
  lemma {:induction false} WriteFieldsLast(vs: seq<string>, d: char, q: char)
    requires |vs| >= 1
    ensures var w := WriteFields(vs, d, q); var v := vs[|vs| - 1];
      w != [] ==> (w[|w| - 1] == q || w[|w| - 1] == d || (v != [] && !NeedsQuotes(v, d, q) && w[|w| - 1] == v[|v| - 1]))
    decreases |vs|
  {
    if |vs| > 1 {
      WriteFieldsLast(vs[1..], d, q);
      assert vs[1..][|vs[1..]| - 1] == vs[|vs| - 1];
    }
  }

  /** The first character of a written row: a quote, the delimiter, or the first
      character of the first value when that value went out unquoted. */
  lemma WriteFieldsFirst(vs: seq<string>, d: char, q: char)
    requires |vs| >= 1
    ensures var w := WriteFields(vs, d, q); var v := vs[0];
      w != [] ==> (w[0] == q || w[0] == d || (v != [] && !NeedsQuotes(v, d, q) && w[0] == v[0]))
  {
  }

  /** The writer and the reader are inverse: a written row tokenizes back to its
      values, whatever delimiters, quotes or line breaks they hold. */
  lemma RoundTrip(vs: seq<string>, d: char, q: char)
    requires d != q && d != '\n' && q != '\n'
    ensures Tokenize(WriteRow(vs, d, q), d, q) == vs
  {
    if vs == [] {
    } else if vs == [[]] {
      assert Read([q, q], StartField, [], [], d, q) == [[]] by {
        assert [q, q][1..] == [q];
        assert [q][1..] == [];
        assert Read([], QuoteInQuoted, [], [], d, q) == [[]];
        assert Read([q], InQuoted, [], [], d, q) == [[]];
      }
    } else {
      var w := WriteFields(vs, d, q);
      WriteFieldsNonEmpty(vs, d, q);
      WriteFieldsLast(vs, d, q);
      assert StripEol(w) == w;
      ReadFields(vs, [], d, q);
      assert [] + vs == vs;
    }
  }
}
