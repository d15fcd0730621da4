/** The row codec (datatool/converter.py): the header index, decoding a line
    into a row, encoding a row into a line, and per-value type inference. */
module Converter {
  import opened Errors
  import opened Text
  import CsvLine

  /** What the codec borrows from outside Python's core: `dateutil.parser.parse`
      (a date, as an ordinal, or a refusal), `float()` (accepts or refuses) and
      `str()` of a parsed date. */
  datatype Foreign = Foreign(parseDate: string -> Option<int>, isFloat: string -> bool, showDate: int -> string)

  /** A decoded data line: field name to (stripped) value. */
  type Row = map<string, string>

  /** The type names `convert_to_types` hands out: 'date', 'numeric' and 'string'. */
  datatype TypeTag = DateTag | NumericTag | StringTag

  /** The `data` argument the decorator inspects: a line of text, or the items of a
      dict in insertion order. */
  datatype DataArg = Line(text: string) | Items(items: seq<(string, string)>)

  /** `get_data_format_rules`: the argument checks made before either conversion.
      Missing or empty data fails; text data also needs a non-empty header index,
      while dict data takes its headers from its own keys. */
  function FormatRules(data: DataArg, headers: map<string, int>): (r: Option<Error>)
    ensures r.Some? ==> r.value == AttributeError
    ensures data.Line? ==> (r.None? <==> data.text != [] && headers != map[])
    ensures data.Items? ==> (r.None? <==> data.items != [])
  {
    match data
    case Line(text) => if text == [] || headers == map[] then Some(AttributeError) else None
    case Items(items) => if items == [] then Some(AttributeError) else None
  }

  /** The index built from the first `n` names: each name to its position, a later
      position replacing an earlier one for a repeated name. */
  function IndexPrefix(names: seq<string>, n: nat): map<string, int>
    requires n <= |names|
  {
    if n == 0 then map[]
    else IndexPrefix(names, n - 1)[names[n - 1] := n - 1]
  }

  /** A name is indexed exactly when it is among the first `n` names, at a position
      holding it, after which no position holds it. */
  lemma {:induction false} IndexPrefixSpec(names: seq<string>, n: nat)
    requires n <= |names|
    ensures forall k :: k in IndexPrefix(names, n) <==> exists i :: 0 <= i < n && names[i] == k
    ensures forall k :: k in IndexPrefix(names, n) ==>
      0 <= IndexPrefix(names, n)[k] < n && names[IndexPrefix(names, n)[k]] == k
    ensures forall k, j :: k in IndexPrefix(names, n) && IndexPrefix(names, n)[k] < j < n ==> names[j] != k
  {
    if n > 0 {
      IndexPrefixSpec(names, n - 1);
      var m := IndexPrefix(names, n - 1);
      var r := IndexPrefix(names, n);
      assert r == m[names[n - 1] := n - 1];
      forall k | k in r ensures exists i :: 0 <= i < n && names[i] == k {
        if k == names[n - 1] {
          assert names[n - 1] == k;
        } else {
          assert k in m;
          var i :| 0 <= i < n - 1 && names[i] == k;
          assert 0 <= i < n && names[i] == k;
        }
      }
      forall k | exists i :: 0 <= i < n && names[i] == k ensures k in r {
        var i :| 0 <= i < n && names[i] == k;
        if i < n - 1 && k != names[n - 1] {
          assert 0 <= i < n - 1 && names[i] == k;
          assert k in m;
        }
      }
    }
  }

  /** The header names: the tokens of the header line, each stripped. */
  function HeaderNames(data: string, terminator: char, encloser: char): (names: seq<string>)
  {
    var tokens := CsvLine.Tokenize(data, terminator, encloser);
    seq(|tokens|, i requires 0 <= i < |tokens| => Strip(tokens[i]))
  }

  /** `get_indexes`: the stripped tokens of the header line, paired with
      `range(0, len(data))`; the pairing stops at the shorter of the two, so an
      empty line gives an empty index. */
  function GetIndexes(data: string, terminator: char, encloser: char): (r: map<string, int>)
    ensures data == [] ==> r == map[]
  {
    var names := HeaderNames(data, terminator, encloser);
    IndexPrefix(names, if |names| < |data| then |names| else |data|)
  }

  /** What `get_indexes` promises: a name is indexed exactly when it is one of the
      (paired) stripped tokens, and it is mapped to the last position holding it. */
  lemma GetIndexesSpec(data: string, terminator: char, encloser: char, k: string)
    ensures var names := HeaderNames(data, terminator, encloser);
      var n := if |names| < |data| then |names| else |data|;
      var r := GetIndexes(data, terminator, encloser);
      && (k in r <==> exists i :: 0 <= i < n && names[i] == k)
      && (k in r ==> 0 <= r[k] < n && names[r[k]] == k && forall j :: r[k] < j < n ==> names[j] != k)
  {
    var names := HeaderNames(data, terminator, encloser);
    IndexPrefixSpec(names, if |names| < |data| then |names| else |data|);
  }

  /** A name none of the first `n` names equals is not indexed. */
  lemma {:induction false} NotIndexed(names: seq<string>, n: nat, k: string)
    requires n <= |names|
    requires forall i :: 0 <= i < n ==> names[i] != k
    ensures k !in IndexPrefix(names, n)
  {
    if n > 0 {
      NotIndexed(names, n - 1, k);
    }
  }

  /** When the names are all different, position `i` is indexed by its own name and
      the index has one entry per name. */
  lemma {:induction false} IndexOfDistinct(names: seq<string>, n: nat)
    requires n <= |names|
    requires forall i, j :: 0 <= i < j < n ==> names[i] != names[j]
    ensures |IndexPrefix(names, n)| == n
    ensures forall i :: 0 <= i < n ==> names[i] in IndexPrefix(names, n) && IndexPrefix(names, n)[names[i]] == i
  {
    if n > 0 {
      IndexOfDistinct(names, n - 1);
      var m := IndexPrefix(names, n - 1);
      var last := names[n - 1];
      NotIndexed(names, n - 1, last);
      var r := IndexPrefix(names, n);
      assert r == m[last := n - 1];
      forall i | 0 <= i < n ensures names[i] in r && r[names[i]] == i {
        if i < n - 1 {
          assert names[i] != last;
        }
      }
    }
  }

  /** Python list indexing: a negative index counts from the end. */
  function PyIndex(i: int, n: nat): (r: Option<nat>)
    ensures r.Some? ==> r.value < n
    ensures r.Some? <==> -(n as int) <= i < n
    ensures 0 <= i < n ==> r == Some(i)
  {
    if 0 <= i < n then Some(i) else if -(n as int) <= i < 0 then Some((i + n) as nat) else None
  }

  /** Every header position is a valid index into `n` values. */
  predicate IndicesFit(headers: map<string, int>, n: nat) {
    forall k :: k in headers ==> PyIndex(headers[k], n).Some?
  }

  /** The row: each header name with the stripped value at its position. */
  function Pick(values: seq<string>, headers: map<string, int>): (row: Row)
    requires IndicesFit(headers, |values|)
    ensures row.Keys == headers.Keys
  {
    map k | k in headers :: Strip(values[PyIndex(headers[k], |values|).value])
  }

  /** What `convert_to_dict` returns for a line. */
  ghost function Decode(line: string, terminator: char, encloser: char, headers: map<string, int>): (r: Result<Row>)
    ensures line == [] || headers == map[] <==> r == Err(AttributeError)
    ensures r.Ok? ==> r.value.Keys == headers.Keys
    ensures r.Err? ==> r.error.AttributeError? || r.error.ValueError? || r.error.IndexError?
  {
    var rules := FormatRules(Line(line), headers);
    if rules.Some? then Err(rules.value)
    else
      var values := CsvLine.Tokenize(line, terminator, encloser);
      if |headers| != |values| then Err(ValueError(ArityMismatch(|headers|, |values|)))
      else if !IndicesFit(headers, |values|) then Err(IndexError)
      else Ok(Pick(values, headers))
  }

  /** Decoding fails with AttributeError on an empty line or an empty index, with
      ValueError exactly when the token count differs from the header count, and
      otherwise yields one stripped token per header, taken at that header's index. */
  lemma DecodeSpec(line: string, terminator: char, encloser: char, headers: map<string, int>)
    ensures var r := Decode(line, terminator, encloser, headers);
      var tokens := CsvLine.Tokenize(line, terminator, encloser);
      && (line == [] || headers == map[] <==> r == Err(AttributeError))
      && (line != [] && headers != map[] ==> (r.Err? && r.error.ValueError? <==> |headers| != |tokens|))
      && (r.Ok? ==> r.value.Keys == headers.Keys && |tokens| == |headers|)
      && (r.Ok? ==> forall k :: k in headers ==>
            (PyIndex(headers[k], |tokens|).Some? && r.value[k] == Strip(tokens[PyIndex(headers[k], |tokens|).value])))
  {
  }

  /** A non-empty line with as many tokens as headers, all positions in range,
      decodes to the picked row. */
  lemma DecodeWellFormed(line: string, terminator: char, encloser: char, headers: map<string, int>)
    requires line != [] && headers != map[]
    requires |CsvLine.Tokenize(line, terminator, encloser)| == |headers|
    requires IndicesFit(headers, |headers|)
    ensures Decode(line, terminator, encloser, headers) == Ok(Pick(CsvLine.Tokenize(line, terminator, encloser), headers))
  {
  }

  /** A row holding, under every header, the stripped value at that header's index
      is the picked row. */
  lemma PickedRow(values: seq<string>, headers: map<string, int>, row: Row)
    requires row.Keys == headers.Keys
    requires forall k :: k in row ==>
      PyIndex(headers[k], |values|).Some? && row[k] == Strip(values[PyIndex(headers[k], |values|).value])
    ensures IndicesFit(headers, |values|) && row == Pick(values, headers)
  {
  }

  /** `convert_to_dict`: decode one line against the header index, filling the
      dictionary one header at a time. */
  method ConvertToDict(line: string, terminator: char, encloser: char, headers: map<string, int>)
    returns (r: Result<Row>)
    ensures r == Decode(line, terminator, encloser, headers)
  {
    var rules := FormatRules(Line(line), headers);
    if rules.Some? {
      return Err(rules.value);
    }
    var values := CsvLine.Tokenize(line, terminator, encloser);
    if |headers| != |values| {
      return Err(ValueError(ArityMismatch(|headers|, |values|)));
    }
    r := FillRow(values, headers);
  }

  /** The loop of `convert_to_dict`: the picked row, or IndexError for a header
      position outside the values. */
  method FillRow(values: seq<string>, headers: map<string, int>) returns (r: Result<Row>)
    ensures r.Err? <==> !IndicesFit(headers, |values|)
    ensures r.Err? ==> r.error == IndexError
    ensures r.Ok? ==> r.value == Pick(values, headers)
  {
    var dictionary: Row := map[];
    var todo := headers.Keys;
    while todo != {}
      invariant todo <= headers.Keys
      invariant dictionary.Keys == headers.Keys - todo
      invariant forall k :: k in dictionary ==>
        PyIndex(headers[k], |values|).Some? && dictionary[k] == Strip(values[PyIndex(headers[k], |values|).value])
      decreases |todo|
    {
      var k :| k in todo;
      var idx := PyIndex(headers[k], |values|);
      if idx.None? {
        return Err(IndexError);
      }
      dictionary := dictionary[k := Strip(values[idx.value])];
      todo := todo - {k};
    }
    PickedRow(values, headers, dictionary);
    r := Ok(dictionary);
  }

  /** The values of dict items, in order. */
  function ValuesOf(items: seq<(string, string)>): (vs: seq<string>)
    ensures |vs| == |items| && forall i :: 0 <= i < |items| ==> vs[i] == items[i].1
  {
    seq(|items|, i requires 0 <= i < |items| => items[i].1)
  }

  /** `convert_to_string`: the dict's values in dict order, written as one line with
      minimal quoting, then stripped of surrounding whitespace; an empty dict fails. */
  function ConvertToString(items: seq<(string, string)>, terminator: char, encloser: char): (r: Result<string>)
    ensures items == [] <==> r == Err(AttributeError)
    ensures r.Ok? ==> r.value == Strip(CsvLine.WriteRow(ValuesOf(items), terminator, encloser))
  {
    var rules := FormatRules(Items(items), map[]);
    if rules.Some? then Err(rules.value)
    else Ok(Strip(CsvLine.WriteRow(ValuesOf(items), terminator, encloser)))
  }

  /** A written row needs no stripping when its values have no whitespace at their
      ends and neither the delimiter nor the quote character is whitespace. */
  lemma WrittenRowIsStripped(vs: seq<string>, d: char, q: char)
    requires |vs| >= 1 && !IsSpace(d) && !IsSpace(q)
    requires forall i :: 0 <= i < |vs| ==> IsStripped(vs[i])
    ensures CsvLine.WriteRow(vs, d, q) != []
    ensures IsStripped(CsvLine.WriteRow(vs, d, q))
  {
    if vs != [[]] {
      CsvLine.WriteFieldsNonEmpty(vs, d, q);
      CsvLine.WriteFieldsFirst(vs, d, q);
      CsvLine.WriteFieldsLast(vs, d, q);
    }
  }

  /** Each value appears on the written row as the writer encodes it. */
  lemma {:induction false} WriteFieldsContains(vs: seq<string>, d: char, q: char, k: nat)
    requires k < |vs|
    ensures exists i :: OccursAt(CsvLine.WriteFields(vs, d, q), CsvLine.EncodeField(vs[k], d, q), i)
    decreases |vs|
  {
    var w := CsvLine.WriteFields(vs, d, q);
    var head := CsvLine.EncodeField(vs[0], d, q);
    if k == 0 {
      assert |vs| > 1 ==> w == head + ([d] + CsvLine.WriteFields(vs[1..], d, q));
      assert w[0..|head|] == head;
      assert OccursAt(w, head, 0);
    } else {
      WriteFieldsContains(vs[1..], d, q, k - 1);
      var rest := CsvLine.WriteFields(vs[1..], d, q);
      var i :| OccursAt(rest, CsvLine.EncodeField(vs[1..][k - 1], d, q), i);
      OccursAfter(head + [d], rest, CsvLine.EncodeField(vs[k], d, q), i);
      assert w == (head + [d]) + rest;
    }
  }

  /** What the writer promises `convert_to_string`'s callers, whatever the delimiter
      (a tab included) as long as the quote is not whitespace: a value without
      whitespace at its ends occurs on the line, enclosed in quotes (and with its
      quotes doubled) exactly when it holds the delimiter, the quote or a line break. */
  lemma ConvertToStringEncloses(items: seq<(string, string)>, d: char, q: char, k: nat)
    requires k < |items| && !IsSpace(q)
    requires IsStripped(items[k].1)
    ensures ConvertToString(items, d, q).Ok?
    ensures exists i :: OccursAt(ConvertToString(items, d, q).value, CsvLine.EncodeField(items[k].1, d, q), i)
  {
    var vs := ValuesOf(items);
    var e := CsvLine.EncodeField(items[k].1, d, q);
    var line := ConvertToString(items, d, q).value;
    if e == [] {
      assert OccursAt(line, e, 0);
    } else {
      assert vs != [[]];
      WriteFieldsContains(vs, d, q, k);
      var p :| OccursAt(CsvLine.WriteFields(vs, d, q), e, p);
      StripKeepsInner(CsvLine.WriteRow(vs, d, q), e, p);
    }
  }

  /** Dict items from parallel names and values. */
  function Zip(names: seq<string>, vs: seq<string>): (items: seq<(string, string)>)
    requires |names| == |vs|
    ensures |items| == |names| && ValuesOf(items) == vs
  {
    seq(|names|, i requires 0 <= i < |names| => (names[i], vs[i]))
  }

  /** Picking stripped values through the index of distinct names puts each value
      under its own name. */
  lemma PickIndexed(names: seq<string>, vs: seq<string>)
    requires |names| == |vs|
    requires forall i, j :: 0 <= i < j < |names| ==> names[i] != names[j]
    requires forall i :: 0 <= i < |vs| ==> IsStripped(vs[i])
    ensures IndicesFit(IndexPrefix(names, |names|), |vs|)
    ensures forall i :: 0 <= i < |names| ==>
      names[i] in Pick(vs, IndexPrefix(names, |names|)) && Pick(vs, IndexPrefix(names, |names|))[names[i]] == vs[i]
  {
    var headers := IndexPrefix(names, |names|);
    IndexOfDistinct(names, |names|);
    IndexPrefixSpec(names, |names|);
    assert IndicesFit(headers, |vs|) by {
      forall k | k in headers ensures PyIndex(headers[k], |vs|).Some? {
        assert 0 <= headers[k] < |vs|;
      }
    }
    var got := Pick(vs, headers);
    forall i | 0 <= i < |names| ensures names[i] in got && got[names[i]] == vs[i] {
      assert headers[names[i]] == i;
    }
  }

  /** Encoding a row and decoding the line against the index of its own field names
      gives the row back: the codec round trip, for values without whitespace at
      their ends, whatever delimiters or quotes they contain. */
  lemma EncodeThenDecode(names: seq<string>, vs: seq<string>, d: char, q: char)
    requires |names| == |vs| >= 1 && d != q && !IsSpace(d) && !IsSpace(q)
    requires forall i, j :: 0 <= i < j < |names| ==> names[i] != names[j]
    requires forall i :: 0 <= i < |vs| ==> IsStripped(vs[i])
    ensures var line := ConvertToString(Zip(names, vs), d, q);
      var row := Decode(line.value, d, q, IndexPrefix(names, |names|));
      line.Ok? && row.Ok? &&
      (forall k :: k in row.value <==> k in names) &&
      (forall i :: 0 <= i < |names| ==> row.value[names[i]] == vs[i])
  {
    var w := CsvLine.WriteRow(vs, d, q);
    EncodedLine(names, vs, d, q);
    var headers := IndexPrefix(names, |names|);
    IndexOfDistinct(names, |names|);
    IndexKeys(names);
    PickIndexed(names, vs);
    assert |headers| == |CsvLine.Tokenize(w, d, q)|;
    assert names[0] in headers;
    DecodeWellFormed(w, d, q, headers);
    var row := Pick(vs, headers);
    assert Decode(w, d, q, headers) == Ok(row);
    assert forall k :: k in row <==> k in names by {
      assert row.Keys == headers.Keys;
    }
  }

  /** The index of a header row has the row's names as its keys. */
  lemma IndexKeys(names: seq<string>)
    ensures forall k :: k in IndexPrefix(names, |names|) <==> k in names
  {
    IndexPrefixSpec(names, |names|);
    forall k | k in names ensures k in IndexPrefix(names, |names|) {
      var i :| 0 <= i < |names| && names[i] == k;
    }
  }

  /** The line `convert_to_string` writes for such values is the writer's row itself,
      and it tokenizes back to the values. */
  lemma EncodedLine(names: seq<string>, vs: seq<string>, d: char, q: char)
    requires |names| == |vs| >= 1 && d != q && !IsSpace(d) && !IsSpace(q)
    requires forall i :: 0 <= i < |vs| ==> IsStripped(vs[i])
    ensures var w := CsvLine.WriteRow(vs, d, q);
      w != [] && ConvertToString(Zip(names, vs), d, q) == Ok(w) && CsvLine.Tokenize(w, d, q) == vs
  {
    WrittenRowIsStripped(vs, d, q);
    CsvLine.RoundTrip(vs, d, q);
  }

  /** The type tag of one value: a date if the date parser accepts it, otherwise
      numeric if `float()` does, otherwise string. */
  function TagOf(value: string, f: Foreign): (t: TypeTag)
    ensures t == DateTag <==> f.parseDate(value).Some?
    ensures t == NumericTag <==> f.parseDate(value).None? && f.isFloat(value)
    ensures t == StringTag <==> f.parseDate(value).None? && !f.isFloat(value)
  {
    if f.parseDate(value).Some? then DateTag
    else if f.isFloat(value) then NumericTag
    else StringTag
  }

  /** The type map of a row, as the validator consults it. */
  ghost function TypeMap(row: Row, f: Foreign): map<string, TypeTag> {
    map k | k in row :: TagOf(row[k], f)
  }

  /** `convert_to_types`: one tag per field of the row, built field by field. */
  method ConvertToTypes(row: Row, f: Foreign) returns (types: map<string, TypeTag>)
    ensures types.Keys == row.Keys
    ensures forall k :: k in types ==> types[k] == TagOf(row[k], f)
    ensures types == TypeMap(row, f)
  {
    types := map[];
    var todo := row.Keys;
    while todo != {}
      invariant todo <= row.Keys
      invariant types.Keys == row.Keys - todo
      invariant forall k :: k in types ==> types[k] == TagOf(row[k], f)
      decreases |todo|
    {
      var key :| key in todo;
      types := types[key := TagOf(row[key], f)];
      todo := todo - {key};
    }
  }
}
