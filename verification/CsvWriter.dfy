/** The CSV file of features/dfee/csv_writer.go, and its reader: the quoting rules of section 2 of
    RFC 4180, with rows that end in a line feed. */
module CsvWriter {
  import opened ByteStrings
  import opened GoText

  const COMMA: Byte := 44
  const QUOTE: Byte := 34
  const LF: Byte := 10
  const CR: Byte := 13

  type Text = seq<Byte>

  // ----- writing ------------------------------------------------------------------------------

  predicate IsSpecial(b: Byte) {
    b == COMMA || b == QUOTE || b == LF || b == CR
  }

  predicate NeedsQuotes(s: Text) {
    exists i :: 0 <= i < |s| && IsSpecial(s[i])
  }

  /** Every quote becomes two. */
  function Doubled(s: Text): Text {
    if s == [] then []
    else Doubled(s[..|s| - 1]) + (if s[|s| - 1] == QUOTE then [QUOTE, QUOTE] else [s[|s| - 1]])
  }

  /** `csvEscape`. */
  function Escaped(s: Text): Text {
    if NeedsQuotes(s) then [QUOTE] + Doubled(s) + [QUOTE] else s
  }

  lemma {:induction false} DoubledIsNoShorter(s: Text)
    ensures |Doubled(s)| >= |s|
  {
    if s != [] {
      DoubledIsNoShorter(s[..|s| - 1]);
    }
  }

  /** A field is written as it is exactly if it holds no comma, quote, line feed or carriage return; any
      other stands between quotes. */
  lemma QuotedExactly(s: Text)
    ensures Escaped(s) == s <==> forall i :: 0 <= i < |s| ==> s[i] != 44 && s[i] != 34 && s[i] != 10 && s[i] != 13
    ensures Escaped(s) != s ==> |Escaped(s)| >= |s| + 2 && Escaped(s)[0] == 34 && Escaped(s)[|Escaped(s)| - 1] == 34
  {
    DoubledIsNoShorter(s);
    if i :| 0 <= i < |s| && !(s[i] != 44 && s[i] != 34 && s[i] != 10 && s[i] != 13) {
      assert IsSpecial(s[i]);
    }
  }

  datatype Row = Row(timestamp: Text, name: Text, labels: Text, value: Text)

  function Fields(r: Row): seq<Text> {
    [r.timestamp, r.name, r.labels, r.value]
  }

  /** The fields, separated by commas and ended by a line feed. */
  function Line(fields: seq<Text>): Text
    requires fields != []
  {
    if |fields| == 1 then Escaped(fields[0]) + [LF]
    else Escaped(fields[0]) + [COMMA] + Line(fields[1..])
  }

  function FileOf(rows: seq<Row>): Text {
    if rows == [] then [] else FileOf(rows[..|rows| - 1]) + Line(Fields(rows[|rows| - 1]))
  }

  class CsvFile {
    var content: Text
    ghost var rows: seq<Row>

    ghost predicate Valid()
      reads this
    {
      content == FileOf(rows)
    }

    constructor ()
      ensures Valid() && rows == []
    {
      content, rows := [], [];
    }

    /** `writeFileRow`. */
    method WriteFileRow(timestamp: Text, name: Text, labels: Text, value: Text)
      requires Valid()
      modifies this
      ensures Valid() && rows == old(rows) + [Row(timestamp, name, labels, value)]
    {
      var row := Escaped(timestamp) + [COMMA] + Escaped(name) + [COMMA] + Escaped(labels) + [COMMA] +
                 Escaped(value) + [LF];
      content := content + row;
      rows := rows + [Row(timestamp, name, labels, value)];
      LineOfFour(timestamp, name, labels, value);
      assert rows[..|rows| - 1] == old(rows);
    }
  }

  lemma LineOfMore(a: Text, rest: seq<Text>)
    requires rest != []
    ensures Line([a] + rest) == Escaped(a) + [COMMA] + Line(rest)
  {
    assert ([a] + rest)[1..] == rest;
  }

  lemma LineOfFour(a: Text, b: Text, c: Text, d: Text)
    ensures Line([a, b, c, d]) ==
            Escaped(a) + [COMMA] + Escaped(b) + [COMMA] + Escaped(c) + [COMMA] + Escaped(d) + [LF]
  {
    LineOfMore(c, [d]);
    LineOfMore(b, [c, d]);
    LineOfMore(a, [b, c, d]);
    assert [c] + [d] == [c, d] && [b] + [c, d] == [b, c, d] && [a] + [b, c, d] == [a, b, c, d];
    FourJoined(Escaped(a), Escaped(b), Escaped(c), Escaped(d) + [LF]);
    assert Escaped(a) + [COMMA] + Escaped(b) + [COMMA] + Escaped(c) + [COMMA] + (Escaped(d) + [LF]) ==
           Escaped(a) + [COMMA] + Escaped(b) + [COMMA] + Escaped(c) + [COMMA] + Escaped(d) + [LF];
  }

  lemma FourJoined(a: Text, b: Text, c: Text, d: Text)
    ensures a + [COMMA] + (b + [COMMA] + (c + [COMMA] + d)) == a + [COMMA] + b + [COMMA] + c + [COMMA] + d
  {
  }

  // ----- reading ------------------------------------------------------------------------------

  /** Where the reader is in a field. */
  datatype Mode = AtField | InPlain | InQuotes | AfterQuote | Malformed

  datatype Reader = Reader(mode: Mode, field: Text, row: seq<Text>, rows: seq<seq<Text>>)

  const START := Reader(AtField, [], [], [])

  function EndField(r: Reader): Reader {
    Reader(AtField, [], r.row + [r.field], r.rows)
  }

  function EndRow(r: Reader): Reader {
    Reader(AtField, [], [], r.rows + [r.row + [r.field]])
  }

  function Step(r: Reader, b: Byte): Reader {
    match r.mode
    case Malformed => r
    case InQuotes => if b == QUOTE then r.(mode := AfterQuote) else r.(field := r.field + [b])
    case AfterQuote =>
      if b == QUOTE then r.(mode := InQuotes, field := r.field + [QUOTE])
      else if b == COMMA then EndField(r)
      else if b == LF then EndRow(r)
      else r.(mode := Malformed)
    case _ =>
      if b == COMMA then EndField(r)
      else if b == LF then EndRow(r)
      else if b == QUOTE && r.mode.AtField? then r.(mode := InQuotes)
      else if b == QUOTE || b == CR then r.(mode := Malformed)
      else r.(mode := InPlain, field := r.field + [b])
  }

  function Read(r: Reader, s: Text): Reader {
    if s == [] then r else Step(Read(r, s[..|s| - 1]), s[|s| - 1])
  }

  /** The rows of a well-formed file. */
  function Decode(s: Text): Option<seq<seq<Text>>> {
    var r := Read(START, s);
    if r.mode.AtField? && r.row == [] then Some(r.rows) else None
  }

  // ----- reading what was written -----------------------------------------------------------------

  lemma {:induction false} ReadConcat(r: Reader, a: Text, b: Text)
    ensures Read(r, a + b) == Read(Read(r, a), b)
  {
    if b == [] {
      assert a + b == a;
    } else {
      assert (a + b)[..|a + b| - 1] == a + b[..|b| - 1];
      ReadConcat(r, a, b[..|b| - 1]);
    }
  }

  lemma {:induction false} ReadPlain(r: Reader, s: Text)
    requires r.mode.AtField? && r.field == [] && !NeedsQuotes(s)
    ensures Read(r, s) == if s == [] then r else r.(mode := InPlain, field := s)
  {
    if s != [] {
      var before, last := s[..|s| - 1], s[|s| - 1];
      assert !IsSpecial(s[|s| - 1]);
      assert !NeedsQuotes(before) by {
        assert forall i :: 0 <= i < |before| ==> before[i] == s[i];
      }
      ReadPlain(r, before);
      assert before + [last] == s;
    }
  }

  lemma {:induction false} ReadDoubled(r: Reader, s: Text)
    requires r.mode.InQuotes?
    ensures Read(r, Doubled(s)) == r.(field := r.field + s)
  {
    if s == [] {
      assert r.field + s == r.field;
    } else {
      var before, last := s[..|s| - 1], s[|s| - 1];
      ReadDoubled(r, before);
      assert r.field + before + [last] == r.field + s;
      var q := if last == QUOTE then [QUOTE, QUOTE] else [last];
      ReadConcat(r, Doubled(before), q);
      ReadPair(Read(r, Doubled(before)), last);
    }
  }

  lemma ReadPair(r: Reader, b: Byte)
    requires r.mode.InQuotes?
    ensures Read(r, if b == QUOTE then [QUOTE, QUOTE] else [b]) == r.(field := r.field + [b])
  {
    ReadOne(r, b);
    if b == QUOTE {
      assert [QUOTE, QUOTE] == [QUOTE] + [QUOTE];
      ReadConcat(r, [QUOTE], [QUOTE]);
      ReadOne(r.(mode := AfterQuote), QUOTE);
    }
  }

  lemma ReadOne(r: Reader, b: Byte)
    ensures Read(r, [b]) == Step(r, b)
  {
    assert [b][..0] == [];
  }

  /** An escaped field and its delimiter give the field back. */
  lemma ReadField(r: Reader, s: Text, delimiter: Byte)
    requires r.mode.AtField? && r.field == [] && (delimiter == COMMA || delimiter == LF)
    ensures Read(r, Escaped(s) + [delimiter]) ==
            if delimiter == COMMA then EndField(r.(field := s)) else EndRow(r.(field := s))
  {
    ReadConcat(r, Escaped(s), [delimiter]);
    ReadOne(Read(r, Escaped(s)), delimiter);
    if NeedsQuotes(s) {
      assert Escaped(s) == [QUOTE] + (Doubled(s) + [QUOTE]);
      ReadConcat(r, [QUOTE], Doubled(s) + [QUOTE]);
      ReadOne(r, QUOTE);
      var q := r.(mode := InQuotes);
      ReadConcat(q, Doubled(s), [QUOTE]);
      ReadDoubled(q, s);
      assert q.field + s == s;
      ReadOne(q.(field := s), QUOTE);
    } else {
      ReadPlain(r, s);
    }
  }

  lemma ReadFieldThen(r: Reader, s: Text, rest: Text)
    requires r.mode.AtField? && r.field == []
    ensures Read(r, Escaped(s) + [COMMA] + rest) == Read(Reader(AtField, [], r.row + [s], r.rows), rest)
  {
    ReadField(r, s, COMMA);
    ReadConcat(r, Escaped(s) + [COMMA], rest);
  }

  /** A line read at the start of a field completes the row with its fields. */
  lemma {:induction false} ReadLine(r: Reader, fields: seq<Text>)
    requires fields != [] && r.mode.AtField? && r.field == []
    ensures Read(r, Line(fields)) == Reader(AtField, [], [], r.rows + [r.row + fields])
    decreases |fields|
  {
    var s, rest := fields[0], fields[1..];
    if rest == [] {
      ReadField(r, s, LF);
      assert [s] == fields;
    } else {
      ReadFieldThen(r, s, Line(rest));
      ReadLine(Reader(AtField, [], r.row + [s], r.rows), rest);
      assert r.row + [s] + rest == r.row + fields;
    }
  }

  function AllFields(rows: seq<Row>): seq<seq<Text>> {
    if rows == [] then [] else AllFields(rows[..|rows| - 1]) + [Fields(rows[|rows| - 1])]
  }

  lemma {:induction false} ReadFile(rows: seq<Row>)
    ensures Read(START, FileOf(rows)) == Reader(AtField, [], [], AllFields(rows))
  {
    if rows != [] {
      var before, last := rows[..|rows| - 1], rows[|rows| - 1];
      ReadFile(before);
      ReadConcat(START, FileOf(before), Line(Fields(last)));
      ReadLine(Read(START, FileOf(before)), Fields(last));
      assert [] + Fields(last) == Fields(last);
    }
  }

  /** Every file decodes to exactly the rows written, whatever bytes their fields hold. */
  lemma FileDecodesToRows(rows: seq<Row>)
    ensures Decode(FileOf(rows)) == Some(AllFields(rows))
  {
    ReadFile(rows);
  }

  lemma {:induction false} AllFieldsInjective(a: seq<Row>, b: seq<Row>)
    requires AllFields(a) == AllFields(b)
    ensures a == b
  {
    SameLength(a);
    SameLength(b);
    if a != [] {
      var fa, fb := AllFields(a), AllFields(b);
      var x, y := a[|a| - 1], b[|b| - 1];
      assert fa[|fa| - 1] == Fields(x) && fb[|fb| - 1] == Fields(y);
      assert Fields(x)[0] == Fields(y)[0] && Fields(x)[1] == Fields(y)[1];
      assert Fields(x)[2] == Fields(y)[2] && Fields(x)[3] == Fields(y)[3];
      assert fa[..|fa| - 1] == AllFields(a[..|a| - 1]) && fb[..|fb| - 1] == AllFields(b[..|b| - 1]);
      AllFieldsInjective(a[..|a| - 1], b[..|b| - 1]);
      assert a == a[..|a| - 1] + [x] && b == b[..|b| - 1] + [y];
    }
  }

  lemma {:induction false} SameLength(a: seq<Row>)
    ensures |AllFields(a)| == |a|
  {
    if a != [] {
      SameLength(a[..|a| - 1]);
    }
  }

  /** Different row sequences never make the same file. */
  lemma FilesDiffer(a: seq<Row>, b: seq<Row>)
    requires FileOf(a) == FileOf(b)
    ensures a == b
  {
    FileDecodesToRows(a);
    FileDecodesToRows(b);
    AllFieldsInjective(a, b);
  }

  // ----- the labels column --------------------------------------------------------------------------

  type Labels = map<Text, Text>

  const EQUALS: Byte := 61

  function Part(key: Text, value: Text): Text {
    key + [EQUALS, QUOTE] + value + [QUOTE]
  }

  /** `k="v"` for the keys in the order given, separated by commas. */
  function Joined(keys: seq<Text>, labels: Labels): Text
    requires forall k :: k in keys ==> k in labels
  {
    if keys == [] then []
    else
      var last := keys[|keys| - 1];
      var part := Part(last, labels[last]);
      if |keys| == 1 then part else Joined(keys[..|keys| - 1], labels) + [COMMA] + part
  }

  predicate InOrder(s: Text, t: Text) {
    !LexLess(t, s)
  }

  predicate Sorted(s: seq<Text>) {
    forall i, j :: 0 <= i < j < |s| ==> InOrder(s[i], s[j])
  }

  /** The first `i` keys are in place: each is in order with everything behind it. */
  predicate Placed(s: seq<Text>, i: nat) {
    forall p, q :: 0 <= p < i && p < q < |s| ==> InOrder(s[p], s[q])
  }

  /** Key `i` is in order with those behind it, up to `j`. */
  predicate LeastUpTo(s: seq<Text>, i: nat, j: nat) {
    i < j <= |s| && forall q :: i < q < j ==> InOrder(s[i], s[q])
  }

  /** The exchange sort of `formatCSVLabels`, in place. */
  method SortKeys(keys: array<Text>)
    modifies keys
    ensures Sorted(keys[..])
    ensures multiset(keys[..]) == multiset(old(keys[..]))
  {
    for i := 0 to keys.Length
      invariant multiset(keys[..]) == multiset(old(keys[..]))
      invariant Placed(keys[..], i)
    {
      PlaceLeast(keys, i);
    }
  }

  /** The inner loop: the least of the keys from `i` on comes to `i`. */
  method PlaceLeast(keys: array<Text>, i: nat)
    requires i < keys.Length && Placed(keys[..], i)
    modifies keys
    ensures multiset(keys[..]) == multiset(old(keys[..]))
    ensures Placed(keys[..], i + 1)
  {
    for j := i + 1 to keys.Length
      invariant multiset(keys[..]) == multiset(old(keys[..]))
      invariant Placed(keys[..], i)
      invariant LeastUpTo(keys[..], i, j)
    {
      if LexLess(keys[j], keys[i]) {
        SwapKeepsOrder(keys[..], i, j);
        Swap(keys, i, j);
      }
    }
  }

  method Swap(keys: array<Text>, i: nat, j: nat)
    requires i < j < keys.Length
    modifies keys
    ensures keys[..] == Swapped(old(keys[..]), i, j)
  {
    keys[i], keys[j] := keys[j], keys[i];
  }

  function Swapped(s: seq<Text>, i: nat, j: nat): seq<Text>
    requires i < j < |s|
  {
    s[i := s[j]][j := s[i]]
  }

  /** Exchanging a key with a smaller one further back keeps what was in place. */
  lemma SwapKeepsOrder(s: seq<Text>, i: nat, j: nat)
    requires i < j < |s| && Placed(s, i) && LexLess(s[j], s[i])
    requires LeastUpTo(s, i, j)
    ensures multiset(Swapped(s, i, j)) == multiset(s)
    ensures Placed(Swapped(s, i, j), i)
    ensures LeastUpTo(Swapped(s, i, j), i, j + 1)
  {
    var t := Swapped(s, i, j);
    forall q | i < q <= j
      ensures InOrder(t[i], t[q])
    {
      if q < j {
        NotLessThroughSmaller(s[q], s[i], s[j]);
      } else {
        LexLessAsymmetric(s[j], s[i]);
      }
    }
    forall p, q | 0 <= p < i && p < q < |t|
      ensures InOrder(t[p], t[q])
    {
      assert t[p] == s[p] && (t[q] == s[q] || t[q] == s[i] || t[q] == s[j]);
    }
  }

  lemma LexLessAsymmetric(s: Text, t: Text)
    requires LexLess(s, t)
    ensures !LexLess(t, s)
  {
    if LexLess(t, s) {
      LexLessTransitive(s, t, s);
      LexLessIrreflexive(s);
    }
  }

  lemma NotLessThroughSmaller(x: Text, other: Text, smallest: Text)
    requires !LexLess(x, other) && LexLess(smallest, other)
    ensures !LexLess(x, smallest)
  {
    if LexLess(x, smallest) {
      LexLessTransitive(x, smallest, other);
    }
  }

  lemma WithoutFirst(s: seq<Text>)
    requires Sorted(s) && s != []
    ensures Sorted(s[1..]) && multiset(s[1..]) == multiset(s) - multiset{s[0]}
  {
    assert s == [s[0]] + s[1..];
  }

  /** Keys of a map in increasing order: there is only one such list. */
  lemma {:induction false} SortedListIsUnique(a: seq<Text>, b: seq<Text>)
    requires Sorted(a) && Sorted(b) && multiset(a) == multiset(b)
    ensures a == b
  {
    assert |a| == |multiset(a)| == |multiset(b)| == |b|;
    if a != [] {
      LeastComesFirst(a, b);
      WithoutFirst(a);
      WithoutFirst(b);
      SortedListIsUnique(a[1..], b[1..]);
    }
  }

  lemma LeastComesFirst(a: seq<Text>, b: seq<Text>)
    requires Sorted(a) && Sorted(b) && multiset(a) == multiset(b) && a != [] && b != []
    ensures a[0] == b[0]
  {
    assert a[0] in multiset(b) && b[0] in multiset(a);
    var i :| 0 <= i < |b| && b[i] == a[0];
    var j :| 0 <= j < |a| && a[j] == b[0];
    LexLessIrreflexive(a[0]);
    LexLessTotal(a[0], b[0]);
  }

  /** `formatCSVLabels`: the keys are collected in whatever order the map yields them, sorted in
      place, and joined. */
  method FormatCsvLabels(labels: Labels, order: seq<Text>) returns (text: Text)
    requires multiset(order) == multiset(labels.Keys)
    ensures forall keys: seq<Text> :: Sorted(keys) && multiset(keys) == multiset(labels.Keys) ==>
              (forall k :: k in keys ==> k in labels) && text == Joined(keys, labels)
  {
    var keys := new Text[|order|](i requires 0 <= i < |order| => order[i]);
    assert keys[..] == order;
    SortKeys(keys);
    ghost var sorted := keys[..];
    KeysOfListing(sorted, labels);
    text := [];
    for i := 0 to keys.Length
      invariant keys[..] == sorted
      invariant text == Joined(sorted[..i], labels)
    {
      assert sorted[..i + 1][..i] == sorted[..i];
      var k := keys[i];
      assert k in sorted;
      var part := k + [EQUALS, QUOTE] + labels[k] + [QUOTE];
      text := if i == 0 then part else text + [COMMA] + part;
    }
    assert sorted[..keys.Length] == sorted;
    forall other: seq<Text> | Sorted(other) && multiset(other) == multiset(labels.Keys)
      ensures other == sorted
    {
      SortedListIsUnique(other, sorted);
    }
  }

  lemma KeysOfListing(keys: seq<Text>, labels: Labels)
    requires multiset(keys) == multiset(labels.Keys)
    ensures forall k :: k in keys ==> k in labels
  {
    forall k | k in keys
      ensures k in labels
    {
      assert k in multiset(keys);
    }
  }

  // ----- reading the labels column ------------------------------------------------------------------

  datatype LabelMode = InKey | AtValue | InValue | AfterValue | BadLabels

  datatype LabelReader = LabelReader(mode: LabelMode, key: Text, value: Text, pairs: seq<(Text, Text)>)

  function LabelStep(r: LabelReader, b: Byte): LabelReader {
    match r.mode
    case InKey => if b == EQUALS then r.(mode := AtValue) else r.(key := r.key + [b])
    case AtValue => if b == QUOTE then r.(mode := InValue) else r.(mode := BadLabels)
    case InValue =>
      if b == QUOTE then LabelReader(AfterValue, [], [], r.pairs + [(r.key, r.value)])
      else r.(value := r.value + [b])
    case AfterValue => if b == COMMA then r.(mode := InKey) else r.(mode := BadLabels)
    case BadLabels => r
  }

  function ReadLabels(r: LabelReader, s: Text): LabelReader {
    if s == [] then r else LabelStep(ReadLabels(r, s[..|s| - 1]), s[|s| - 1])
  }

  lemma {:induction false} ReadLabelsConcat(r: LabelReader, a: Text, b: Text)
    ensures ReadLabels(r, a + b) == ReadLabels(ReadLabels(r, a), b)
  {
    if b == [] {
      assert a + b == a;
    } else {
      assert (a + b)[..|a + b| - 1] == a + b[..|b| - 1];
      ReadLabelsConcat(r, a, b[..|b| - 1]);
    }
  }

  lemma {:induction false} ReadKey(r: LabelReader, s: Text)
    requires r.mode.InKey? && EQUALS !in s
    ensures ReadLabels(r, s) == r.(key := r.key + s)
  {
    if s == [] {
      assert r.key + s == r.key;
    } else {
      var before, last := s[..|s| - 1], s[|s| - 1];
      ReadKey(r, before);
      assert last in s;
      assert r.key + before + [last] == r.key + s;
    }
  }

  lemma {:induction false} ReadValue(r: LabelReader, s: Text)
    requires r.mode.InValue? && QUOTE !in s
    ensures ReadLabels(r, s) == r.(value := r.value + s)
  {
    if s == [] {
      assert r.value + s == r.value;
    } else {
      var before, last := s[..|s| - 1], s[|s| - 1];
      ReadValue(r, before);
      assert last in s;
      assert r.value + before + [last] == r.value + s;
    }
  }

  lemma ReadByte(r: LabelReader, b: Byte)
    ensures ReadLabels(r, [b]) == LabelStep(r, b)
  {
    assert [b][..0] == [];
  }

  lemma ReadPart(pairs: seq<(Text, Text)>, key: Text, value: Text)
    requires EQUALS !in key && QUOTE !in value
    ensures ReadLabels(LabelReader(InKey, [], [], pairs), Part(key, value)) ==
            LabelReader(AfterValue, [], [], pairs + [(key, value)])
  {
    var start := LabelReader(InKey, [], [], pairs);
    var inValue := LabelReader(InValue, key, [], pairs);
    assert Part(key, value) == key + [EQUALS] + [QUOTE] + value + [QUOTE];
    ReadLabelsConcat(start, key + [EQUALS] + [QUOTE] + value, [QUOTE]);
    ReadLabelsConcat(start, key + [EQUALS] + [QUOTE], value);
    ReadLabelsConcat(start, key + [EQUALS], [QUOTE]);
    ReadLabelsConcat(start, key, [EQUALS]);
    ReadKey(start, key);
    assert [] + key == key && [] + value == value;
    ReadByte(start.(key := key), EQUALS);
    ReadByte(LabelReader(AtValue, key, [], pairs), QUOTE);
    ReadValue(inValue, value);
    ReadByte(inValue.(value := value), QUOTE);
  }

  /** No key holds an equals sign, and no value a quote. */
  predicate Plain(labels: Labels) {
    forall k :: k in labels ==> EQUALS !in k && QUOTE !in labels[k]
  }

  function Pairs(keys: seq<Text>, labels: Labels): (pairs: seq<(Text, Text)>)
    requires forall k :: k in keys ==> k in labels
    ensures |pairs| == |keys| && forall i :: 0 <= i < |keys| ==> pairs[i] == (keys[i], labels[keys[i]])
  {
    seq(|keys|, i requires 0 <= i < |keys| => (keys[i], labels[keys[i]]))
  }

  lemma ReadOneMore(start: LabelReader, text: Text, pairs: seq<(Text, Text)>, key: Text, value: Text)
    requires EQUALS !in key && QUOTE !in value
    requires ReadLabels(start, text) == LabelReader(AfterValue, [], [], pairs)
    ensures ReadLabels(start, text + [COMMA] + Part(key, value)) == LabelReader(AfterValue, [], [], pairs + [(key, value)])
  {
    ReadLabelsConcat(start, text + [COMMA], Part(key, value));
    ReadLabelsConcat(start, text, [COMMA]);
    ReadByte(LabelReader(AfterValue, [], [], pairs), COMMA);
    ReadPart(pairs, key, value);
  }

  lemma {:induction false} ReadJoined(keys: seq<Text>, labels: Labels)
    requires keys != [] && Plain(labels) && forall k :: k in keys ==> k in labels
    ensures ReadLabels(LabelReader(InKey, [], [], []), Joined(keys, labels)) ==
            LabelReader(AfterValue, [], [], Pairs(keys, labels))
  {
    var before, last := keys[..|keys| - 1], keys[|keys| - 1];
    assert last in keys;
    if |keys| == 1 {
      ReadPart([], last, labels[last]);
      assert [] + [(last, labels[last])] == Pairs(keys, labels);
    } else {
      ReadJoined(before, labels);
      ReadOneMore(LabelReader(InKey, [], [], []), Joined(before, labels), Pairs(before, labels), last, labels[last]);
      assert Pairs(before, labels) + [(last, labels[last])] == Pairs(keys, labels);
    }
  }

  lemma JoinedOfSome(keys: seq<Text>, labels: Labels)
    requires forall k :: k in keys ==> k in labels
    ensures Joined(keys, labels) == [] <==> keys == []
  {
  }

  lemma SamePairs(ka: seq<Text>, a: Labels, kb: seq<Text>, b: Labels)
    requires multiset(ka) == multiset(a.Keys) && multiset(kb) == multiset(b.Keys)
    requires (forall k :: k in ka ==> k in a) && (forall k :: k in kb ==> k in b)
    requires Pairs(ka, a) == Pairs(kb, b)
    ensures a == b
  {
    var pa, pb := Pairs(ka, a), Pairs(kb, b);
    forall i | 0 <= i < |ka|
      ensures ka[i] == kb[i] && a[ka[i]] == b[kb[i]]
    {
      assert pa[i] == pb[i];
    }
    assert ka == kb;
    forall k
      ensures k in a <==> k in b
      ensures k in a && k in b ==> a[k] == b[k]
    {
      assert k in a <==> k in multiset(a.Keys);
      assert k in b <==> k in multiset(b.Keys);
      assert k in ka <==> k in multiset(ka);
    }
  }

  /** With no equals sign in a key and no quote in a value, different labels have different texts. */
  lemma PlainLabelsTextIsUnique(ka: seq<Text>, a: Labels, kb: seq<Text>, b: Labels)
    requires multiset(ka) == multiset(a.Keys) && multiset(kb) == multiset(b.Keys)
    requires (forall k :: k in ka ==> k in a) && (forall k :: k in kb ==> k in b)
    requires Plain(a) && Plain(b) && Joined(ka, a) == Joined(kb, b)
    ensures a == b
  {
    JoinedOfSome(ka, a);
    JoinedOfSome(kb, b);
    if ka != [] {
      ReadJoined(ka, a);
      ReadJoined(kb, b);
    }
    SamePairs(ka, a, kb, b);
  }

  /** Labels are not escaped: two labels have the text of one label whose value, or of one whose key,
      spells out the place where they meet. */
  lemma UnescapedLabelsCollide(k: Text, v: Text, l: Text, w: Text)
    requires k != l
    ensures var two := Joined([k, l], map[k := v, l := w]);
      var value, key := v + [QUOTE, COMMA] + l + [EQUALS, QUOTE] + w, k + [EQUALS, QUOTE] + v + [QUOTE, COMMA] + l;
      two == Joined([k], map[k := value]) == Joined([key], map[key := w])
  {
    var value, key := v + [QUOTE, COMMA] + l + [EQUALS, QUOTE] + w, k + [EQUALS, QUOTE] + v + [QUOTE, COMMA] + l;
    var labels := map[k := v, l := w];
    assert [k, l][..1] == [k];
    assert Joined([k], labels) == Part(k, v);
    assert Joined([k, l], labels) == Part(k, v) + [COMMA] + Part(l, w);
    assert Joined([k], map[k := value]) == Part(k, value);
    assert Joined([key], map[key := w]) == Part(key, w);
    assert [QUOTE] + [COMMA] == [QUOTE, COMMA];
    assert Part(k, v) + [COMMA] + Part(l, w) == Part(k, value);
    assert Part(k, v) + [COMMA] + Part(l, w) == Part(key, w);
  }

  /** `t` is what the column holds for the labels. */
  ghost predicate IsTextOf(labels: Labels, t: Text) {
    exists keys: seq<Text> :: Lists(keys, labels) && Joined(keys, labels) == t
  }

  predicate Lists(keys: seq<Text>, labels: Labels) {
    Sorted(keys) && multiset(keys) == multiset(labels.Keys) && forall k :: k in keys ==> k in labels
  }

  /** A key could end just before `i`, and a value begin after its quote and end with the text. */
  predicate IsPlace(t: Text, i: nat) {
    i + 2 < |t| && t[i] == EQUALS && t[i + 1] == QUOTE
  }

  ghost predicate OnePlaceAtMost(t: Text) {
    forall i: nat, j: nat :: IsPlace(t, i) && IsPlace(t, j) ==> i == j
  }

  ghost predicate NoOtherHasText(labels: Labels, t: Text) {
    forall other: Labels :: IsTextOf(other, t) ==> other == labels
  }

  lemma OneLabelText(key: Text, value: Text)
    ensures IsTextOf(map[key := value], Part(key, value))
  {
    var labels := map[key := value];
    assert labels.Keys == {key};
    assert multiset([key]) == multiset(labels.Keys);
    assert Lists([key], labels) && Joined([key], labels) == Part(key, value);
  }

  /** The label that ends its key at a place of the text of some labels. */
  lemma PlaceIsLabel(t: Text, i: nat)
    requires IsPlace(t, i) && t[|t| - 1] == QUOTE
    ensures IsTextOf(map[t[..i] := t[i + 2..|t| - 1]], t)
  {
    var key, value := t[..i], t[i + 2..|t| - 1];
    OneLabelText(key, value);
    assert Part(key, value) == t;
  }

  lemma PartHasPlace(before: Text, key: Text, value: Text)
    ensures IsPlace(before + Part(key, value), |before| + |key|)
  {
    var t := before + Part(key, value);
    assert t[|before| + |key|] == Part(key, value)[|key|];
    assert t[|before| + |key| + 1] == Part(key, value)[|key| + 1];
  }

  lemma JoinedHasPlace(keys: seq<Text>, labels: Labels) returns (i: nat)
    requires keys != [] && forall k :: k in keys ==> k in labels
    ensures IsPlace(Joined(keys, labels), i)
    ensures Joined(keys, labels)[|Joined(keys, labels)| - 1] == QUOTE
  {
    var last := keys[|keys| - 1];
    var before := if |keys| == 1 then [] else Joined(keys[..|keys| - 1], labels) + [COMMA];
    PartHasPlace(before, last, labels[last]);
    assert Joined(keys, labels) == before + Part(last, labels[last]);
    i := |before| + |last|;
  }

  lemma SeveralHavePlaces(keys: seq<Text>, labels: Labels)
    requires |keys| >= 2 && forall k :: k in keys ==> k in labels
    ensures !OnePlaceAtMost(Joined(keys, labels))
  {
    var before, last := Joined(keys[..|keys| - 1], labels), keys[|keys| - 1];
    var i := JoinedHasPlace(keys[..|keys| - 1], labels);
    PartHasPlace(before + [COMMA], last, labels[last]);
    var t := Joined(keys, labels);
    assert t == before + [COMMA] + Part(last, labels[last]);
    assert IsPlace(t, i) && IsPlace(t, |before| + 1 + |last|);
  }

  lemma OneKeyedBy(keys: seq<Text>, labels: Labels)
    requires Lists(keys, labels) && |keys| == 1
    ensures labels == map[keys[0] := labels[keys[0]]] && Joined(keys, labels) == Part(keys[0], labels[keys[0]])
  {
    forall k
      ensures k in labels <==> k == keys[0]
    {
      assert k in labels <==> k in multiset(keys);
    }
  }

  lemma SamePartSameLabel(k: Text, v: Text, l: Text, w: Text)
    requires Part(k, v) == Part(l, w) && OnePlaceAtMost(Part(k, v))
    ensures k == l && v == w
  {
    PartHasPlace([], k, v);
    PartHasPlace([], l, w);
    assert [] + Part(k, v) == Part(k, v) && [] + Part(l, w) == Part(l, w);
    var t := Part(k, v);
    assert |k| == |l|;
    assert k == t[..|k|] && l == t[..|l|];
    assert v == t[|k| + 2..|t| - 1] && w == t[|l| + 2..|t| - 1];
  }

  lemma OnePlaceOneMap(ka: seq<Text>, a: Labels, kb: seq<Text>, b: Labels)
    requires Lists(ka, a) && Lists(kb, b) && Joined(ka, a) == Joined(kb, b) && OnePlaceAtMost(Joined(ka, a))
    ensures a == b
  {
    JoinedOfSome(ka, a);
    JoinedOfSome(kb, b);
    if ka == [] {
      SamePairs(ka, a, kb, b);
    } else if |ka| >= 2 {
      SeveralHavePlaces(ka, a);
    } else if |kb| >= 2 {
      SeveralHavePlaces(kb, b);
    } else {
      OneKeyedBy(ka, a);
      OneKeyedBy(kb, b);
      SamePartSameLabel(ka[0], a[ka[0]], kb[0], b[kb[0]]);
    }
  }

  lemma TextEndsWithQuote(labels: Labels, t: Text)
    requires IsTextOf(labels, t) && t != []
    ensures t[|t| - 1] == QUOTE
  {
    var keys: seq<Text> :| Lists(keys, labels) && Joined(keys, labels) == t;
    var i := JoinedHasPlace(keys, labels);
  }

  /** Two places make two maps of one label each. */
  lemma TwoPlacesTwoMaps(t: Text, i: nat, j: nat) returns (one: Labels, two: Labels)
    requires IsPlace(t, i) && IsPlace(t, j) && i < j && t[|t| - 1] == QUOTE
    ensures IsTextOf(one, t) && IsTextOf(two, t) && one != two
  {
    PlaceIsLabel(t, i);
    PlaceIsLabel(t, j);
    one, two := map[t[..i] := t[i + 2..|t| - 1]], map[t[..j] := t[j + 2..|t| - 1]];
    assert |t[..i]| < |t[..j]|;
    assert t[..i] in one && t[..i] !in two;
  }

  lemma OnePlaceIsEnough(labels: Labels, t: Text)
    requires IsTextOf(labels, t) && OnePlaceAtMost(t)
    ensures NoOtherHasText(labels, t)
  {
    var keys: seq<Text> :| Lists(keys, labels) && Joined(keys, labels) == t;
    forall other: Labels | IsTextOf(other, t)
      ensures other == labels
    {
      var others: seq<Text> :| Lists(others, other) && Joined(others, other) == t;
      OnePlaceOneMap(keys, labels, others, other);
    }
  }

  /** The text of some labels is that of no others, exactly when at most one place in it could be where a
      key ends and a value begins. */
  lemma TextIsUniqueExactly(labels: Labels, t: Text)
    requires IsTextOf(labels, t)
    ensures NoOtherHasText(labels, t) <==> OnePlaceAtMost(t)
  {
    if OnePlaceAtMost(t) {
      OnePlaceIsEnough(labels, t);
    } else {
      var i: nat, j: nat :| IsPlace(t, i) && IsPlace(t, j) && i != j;
      TextEndsWithQuote(labels, t);
      var one, two := TwoPlacesTwoMaps(t, if i < j then i else j, if i < j then j else i);
    }
  }
}
