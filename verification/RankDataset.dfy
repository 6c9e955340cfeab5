/** The offline ranking dataset: a header, per-row columns, and the queries, scores
    and keys whose sizes the columns imply. Signed and floating-point fields are
    kept as bit patterns. */
module RankDataset {
  import opened Results
  import opened Words
  import opened Tiles
  import opened Sections
  import Weights

  const MAGIC := 0x534C_4841
  const VERSION := 2
  const HEADER := 40
  const I32_MAX := 0x7FFF_FFFF

  datatype Head = Head(layer: U32Word, qDim: U32Word, rows: U64Word, chunkCount: U64Word, keyDim: U32Word)

  datatype Layer = Layer(
    head: Head,
    keyRows: seq<nat>, heads: seq<nat>, groups: seq<nat>, tokens: seq<nat>,
    visible: seq<nat>, chunks: seq<nat>,
    q: seq<nat>, baseline: seq<nat>, control: seq<nat>, keys: seq<seq<nat>>,
    starts: seq<nat>)

  // ---- shapes -----------------------------------------------------------------------------------

  /** Key counts per chunk; then head, group, token, visible count and chunk per row. */
  function ColumnSpecs(h: Head): seq<Section> {
    [Section(8, h.chunkCount), Section(4, h.rows), Section(4, h.rows), Section(8, h.rows),
     Section(4, h.rows), Section(4, h.rows)]
  }

  function Total(counts: seq<nat>): nat {
    if counts == [] then 0 else Total(counts[..|counts| - 1]) + counts[|counts| - 1]
  }

  /** `starts`: the running totals before each row, and the final one. */
  function PrefixSums(counts: seq<nat>): (r: seq<nat>)
    ensures |r| == |counts| + 1
    ensures forall i :: 0 <= i <= |counts| ==> r[i] == Total(counts[..i])
  {
    seq(|counts| + 1, i requires 0 <= i <= |counts| => Total(counts[..i]))
  }

  function KeySpecs(keyRows: seq<nat>, keyDim: nat): (r: seq<Section>)
    ensures |r| == |keyRows| && forall c :: 0 <= c < |keyRows| ==> r[c] == Section(4, keyRows[c] * keyDim)
  {
    seq(|keyRows|, c requires 0 <= c < |keyRows| => Section(4, keyRows[c] * keyDim))
  }

  /** Queries, baseline logits, control scores, then the keys of each chunk. */
  function DataSpecs(h: Head, keyRows: seq<nat>, visible: seq<nat>): seq<Section> {
    [Section(4, h.rows * h.qDim), Section(4, Total(visible)), Section(4, Total(visible))] + KeySpecs(keyRows, h.keyDim)
  }

  /** Every element and byte count fits a machine word. */
  predicate Addressable(top: nat, specs: seq<Section>) {
    forall i :: 0 <= i < |specs| ==> specs[i].count * 4 < top
  }

  /** Visible counts are positive and do not exceed the keys of the row's chunk. */
  predicate RowsFine(keyRows: seq<nat>, visible: seq<nat>, chunks: seq<nat>) {
    |chunks| == |visible|
    && forall i :: 0 <= i < |visible| ==>
         0 < visible[i] <= I32_MAX && chunks[i] <= I32_MAX && chunks[i] < |keyRows| && visible[i] <= keyRows[chunks[i]]
  }

  predicate AllFinite(vals: seq<seq<nat>>) {
    forall i :: 0 <= i < |vals| ==> FiniteWords(vals[i])
  }

  predicate FiniteWords(ws: seq<nat>) {
    forall j :: 0 <= j < |ws| ==> ws[j] < U32 && Weights.IsFinite(ws[j])
  }

  predicate HeadFine(h: Head) {
    h.qDim > 0 && h.keyDim > 0 && h.chunkCount > 0
  }

  // ---- the file ----------------------------------------------------------------------------------

  function HeaderSpecs(): seq<Section> {
    [Section(4, 4), Section(8, 2), Section(4, 2)]
  }

  /** The header words: magic, version, layer and query size; rows and chunks; key
      size and a word that is not looked at. */
  function HeaderVals(h: Head, reserved: U32Word): seq<seq<nat>> {
    [[MAGIC, VERSION, h.layer, h.qDim], [h.rows, h.chunkCount], [h.keyDim, reserved]]
  }

  function ColumnVals(l: Layer): seq<seq<nat>> {
    [l.keyRows, l.heads, l.groups, l.tokens, l.visible, l.chunks]
  }

  function DataVals(l: Layer): seq<seq<nat>> {
    [l.q, l.baseline, l.control] + l.keys
  }

  /** A layer that a file can hold. */
  predicate WellFormed(top: nat, l: Layer) {
    && HeadFine(l.head)
    && Matches(ColumnSpecs(l.head), ColumnVals(l))
    && RowsFine(l.keyRows, l.visible, l.chunks)
    && Matches(DataSpecs(l.head, l.keyRows, l.visible), DataVals(l))
    && Addressable(top, DataSpecs(l.head, l.keyRows, l.visible))
    && AllFinite(DataVals(l))
    && l.starts == PrefixSums(l.visible)
  }

  function Encode(l: Layer, reserved: U32Word): Bytes
    requires Matches(ColumnSpecs(l.head), ColumnVals(l))
        && Matches(DataSpecs(l.head, l.keyRows, l.visible), DataVals(l))
  {
    EncodeSections(HeaderSpecs(), HeaderVals(l.head, reserved))
    + (EncodeSections(ColumnSpecs(l.head), ColumnVals(l))
       + EncodeSections(DataSpecs(l.head, l.keyRows, l.visible), DataVals(l)))
  }

  // ---- parsing ------------------------------------------------------------------------------------

  /** The header words, if magic and version are right. */
  function HeadOf(vals: seq<seq<nat>>): Option<Head>
    requires Matches(HeaderSpecs(), vals)
  {
    assert HeaderSpecs()[0] == Section(4, 4) && HeaderSpecs()[1] == Section(8, 2) && HeaderSpecs()[2] == Section(4, 2);
    CapacityValues();
    if vals[0][0] != MAGIC || vals[0][1] != VERSION then None
    else
      var h := Head(vals[0][2], vals[0][3], vals[1][0], vals[1][1], vals[2][0]);
      if HeadFine(h) then Some(h) else None
  }

  function LayerOf(h: Head, cols: seq<seq<nat>>, data: seq<seq<nat>>): Layer
    requires |cols| == 6 && |data| >= 3
  {
    Layer(h, cols[0], cols[1], cols[2], cols[3], cols[4], cols[5], data[0], data[1], data[2], data[3..],
        PrefixSums(cols[4]))
  }

  /** The data sections and the end of the file. */
  function ParseData(top: nat, h: Head, cols: seq<seq<nat>>, b: Bytes): Option<Layer>
    requires |cols| == 6
  {
    var specs := DataSpecs(h, cols[0], cols[4]);
    if !Addressable(top, specs) then None
    else
      match TakeSections(b, specs)
      case Stop => None
      case Got(data, rest) =>
        TakenSectionsEncode(b, specs);
        if !AllFinite(data) || rest != [] then None else Some(LayerOf(h, cols, data))
  }

  function ParseRows(top: nat, h: Head, b: Bytes): Option<Layer> {
    match TakeSections(b, ColumnSpecs(h))
    case Stop => None
    case Got(cols, rest) =>
      TakenSectionsEncode(b, ColumnSpecs(h));
      if !RowsFine(cols[0], cols[4], cols[5]) then None else ParseData(top, h, cols, rest)
  }

  function Parse(top: nat, raw: Bytes): Option<Layer> {
    match TakeSections(raw, HeaderSpecs())
    case Stop => None
    case Got(vals, rest) =>
      TakenSectionsEncode(raw, HeaderSpecs());
      match HeadOf(vals)
      case None => None
      case Some(h) => ParseRows(top, h, rest)
  }

  // ---- exactly the encodings are accepted ------------------------------------------------------------

  lemma DataAccepted(top: nat, l: Layer)
    requires WellFormed(top, l)
    ensures ParseData(top, l.head, ColumnVals(l),
        EncodeSections(DataSpecs(l.head, l.keyRows, l.visible), DataVals(l))) == Some(l)
  {
    var specs, b := DataSpecs(l.head, l.keyRows, l.visible),
        EncodeSections(DataSpecs(l.head, l.keyRows, l.visible), DataVals(l));
    TakeEncodedSections(specs, DataVals(l), []);
    assert b + [] == b;
    assert DataVals(l)[3..] == l.keys;
  }

  lemma RowsAccepted(top: nat, l: Layer)
    requires WellFormed(top, l)
    ensures ParseRows(top, l.head, EncodeSections(ColumnSpecs(l.head), ColumnVals(l))
                                   + EncodeSections(DataSpecs(l.head, l.keyRows, l.visible), DataVals(l))) == Some(l)
  {
    TakeEncodedSections(ColumnSpecs(l.head), ColumnVals(l),
        EncodeSections(DataSpecs(l.head, l.keyRows, l.visible), DataVals(l)));
    DataAccepted(top, l);
  }

  lemma HeaderShaped(h: Head, reserved: U32Word)
    ensures Matches(HeaderSpecs(), HeaderVals(h, reserved))
  {
    CapacityValues();
  }

  /** Every well-formed layer is accepted and comes back as it was. */
  lemma EncodedAccepted(top: nat, l: Layer, reserved: U32Word)
    requires WellFormed(top, l)
    ensures Parse(top, Encode(l, reserved)) == Some(l)
  {
    HeaderShaped(l.head, reserved);
    var body := EncodeSections(ColumnSpecs(l.head), ColumnVals(l))
        + EncodeSections(DataSpecs(l.head, l.keyRows, l.visible), DataVals(l));
    TakeEncodedSections(HeaderSpecs(), HeaderVals(l.head, reserved), body);
    RowsAccepted(top, l);
  }

  lemma AcceptedData(top: nat, h: Head, cols: seq<seq<nat>>, b: Bytes)
    requires HeadFine(h) && Matches(ColumnSpecs(h), cols) && RowsFine(cols[0], cols[4], cols[5])
    requires ParseData(top, h, cols, b).Some?
    ensures var l := ParseData(top, h, cols, b).value;
      WellFormed(top, l) && l.head == h && ColumnVals(l) == cols
      && b == EncodeSections(DataSpecs(h, l.keyRows, l.visible), DataVals(l))
  {
    var specs := DataSpecs(h, cols[0], cols[4]);
    TakenSectionsEncode(b, specs);
    var data := TakeSections(b, specs).value;
    assert [data[0], data[1], data[2]] + data[3..] == data;
    assert [cols[0], cols[1], cols[2], cols[3], cols[4], cols[5]] == cols;
    assert EncodeSections(specs, data) + [] == EncodeSections(specs, data);
  }

  lemma AcceptedRows(top: nat, h: Head, b: Bytes)
    requires HeadFine(h) && ParseRows(top, h, b).Some?
    ensures var l := ParseRows(top, h, b).value;
      WellFormed(top, l) && l.head == h
      && b == EncodeSections(ColumnSpecs(h), ColumnVals(l))
          + EncodeSections(DataSpecs(h, l.keyRows, l.visible), DataVals(l))
  {
    TakenSectionsEncode(b, ColumnSpecs(h));
    var r := TakeSections(b, ColumnSpecs(h));
    AcceptedData(top, h, r.value, r.rest);
  }

  /** Whatever is accepted is well formed, and the file is its encoding. */
  lemma AcceptedEncoded(top: nat, raw: Bytes) returns (reserved: U32Word)
    requires Parse(top, raw).Some?
    ensures var l := Parse(top, raw).value; WellFormed(top, l) && raw == Encode(l, reserved)
  {
    TakenSectionsEncode(raw, HeaderSpecs());
    var r := TakeSections(raw, HeaderSpecs());
    var h := HeadOf(r.value).value;
    CapacityValues();
    assert HeaderSpecs()[0] == Section(4, 4) && HeaderSpecs()[1] == Section(8, 2) && HeaderSpecs()[2] == Section(4, 2);
    reserved := r.value[2][1];
    HeaderWords(r.value, h, reserved);
    AcceptedRows(top, h, r.rest);
  }

  lemma HeaderWords(vals: seq<seq<nat>>, h: Head, reserved: U32Word)
    requires Matches(HeaderSpecs(), vals) && HeadOf(vals) == Some(h) && vals[2][1] == reserved
    ensures vals == HeaderVals(h, reserved)
  {
    assert vals[0] == [MAGIC, VERSION, h.layer, h.qDim];
    assert vals[1] == [h.rows, h.chunkCount];
    assert vals[2] == [h.keyDim, reserved];
  }

  /** The length that header and counts imply. */
  function ImpliedSize(l: Layer): nat {
    HEADER + 8 * l.head.chunkCount + 24 * l.head.rows
    + 4 * (l.head.rows * l.head.qDim) + 8 * Total(l.visible) + SizeOf(KeySpecs(l.keyRows, l.head.keyDim))
  }

  lemma AcceptedSize(top: nat, raw: Bytes)
    requires Parse(top, raw).Some?
    ensures |raw| == ImpliedSize(Parse(top, raw).value)
  {
    var reserved := AcceptedEncoded(top, raw);
    var l := Parse(top, raw).value;
    HeaderShaped(l.head, reserved);
    EncodedSize(HeaderSpecs(), HeaderVals(l.head, reserved));
    EncodedSize(ColumnSpecs(l.head), ColumnVals(l));
    EncodedSize(DataSpecs(l.head, l.keyRows, l.visible), DataVals(l));
    HeaderSize();
    ColumnsSize(l.head);
    DataSize(l);
  }

  lemma HeaderSize()
    ensures SizeOf(HeaderSpecs()) == HEADER
  {
    var s := HeaderSpecs();
    assert s[1..] == [Section(8, 2), Section(4, 2)] && s[1..][1..] == [Section(4, 2)] && s[1..][1..][1..] == [];
  }

  lemma ColumnsSize(h: Head)
    ensures SizeOf(ColumnSpecs(h)) == 8 * h.chunkCount + 24 * h.rows
  {
    var s, r := ColumnSpecs(h), Section(4, h.rows);
    assert s == [Section(8, h.chunkCount)] + ([r] + ([r] + ([Section(8, h.rows)] + ([r] + [r]))));
    One(Section(8, h.chunkCount), [r] + ([r] + ([Section(8, h.rows)] + ([r] + [r]))));
    One(r, [r] + ([Section(8, h.rows)] + ([r] + [r])));
    One(r, [Section(8, h.rows)] + ([r] + [r]));
    One(Section(8, h.rows), [r] + [r]);
    One(r, [r]);
    One(r, []);
    assert [r] + [] == [r];
  }

  lemma One(s: Section, rest: seq<Section>)
    ensures SizeOf([s] + rest) == s.count * s.width + SizeOf(rest)
  {
    assert ([s] + rest)[1..] == rest;
  }

  lemma DataSize(l: Layer)
    ensures SizeOf(DataSpecs(l.head, l.keyRows, l.visible))
         == 4 * (l.head.rows * l.head.qDim) + 8 * Total(l.visible) + SizeOf(KeySpecs(l.keyRows, l.head.keyDim))
  {
    var keys := KeySpecs(l.keyRows, l.head.keyDim);
    var q, s := Section(4, l.head.rows * l.head.qDim), Section(4, Total(l.visible));
    assert DataSpecs(l.head, l.keyRows, l.visible) == [q] + ([s] + ([s] + keys));
    One(q, [s] + ([s] + keys));
    One(s, [s] + keys);
    One(s, keys);
  }

  // ---- rows -----------------------------------------------------------------------------------------

  datatype Row = Row(head: nat, group: nat, token: nat, chunk: nat,
    q: seq<nat>, baseline: seq<nat>, control: seq<nat>, keys: seq<nat>, visible: nat, keyDim: nat)

  /** What `row` needs of its layer at an index: every slice is in bounds. */
  predicate RowInBounds(l: Layer, i: nat) {
    && i < |l.chunks| && i < |l.visible| && i + 1 < |l.starts| && i < |l.heads| && i < |l.groups| && i < |l.tokens|
    && i * l.head.qDim + l.head.qDim <= |l.q|
    && l.starts[i] <= l.starts[i + 1] <= |l.baseline| && l.starts[i + 1] <= |l.control|
    && l.chunks[i] < |l.keys| && l.visible[i] * l.head.keyDim <= |l.keys[l.chunks[i]]|
  }

  function RowAt(top: nat, l: Layer, i: nat): Option<Row>
    requires i < l.head.rows ==> RowInBounds(l, i)
  {
    if i >= l.head.rows then None
    else if l.visible[i] * l.head.keyDim >= top || i * l.head.qDim + l.head.qDim >= top then None
    else
      Some(Row(l.heads[i], l.groups[i], l.tokens[i], l.chunks[i],
        l.q[i * l.head.qDim..i * l.head.qDim + l.head.qDim],
        l.baseline[l.starts[i]..l.starts[i + 1]], l.control[l.starts[i]..l.starts[i + 1]],
        l.keys[l.chunks[i]][..l.visible[i] * l.head.keyDim], l.visible[i], l.head.keyDim))
  }

  lemma TimesMonotone(a: nat, b: nat, c: nat)
    requires a <= b
    ensures a * c <= b * c
  {
  }

  lemma {:induction false} TotalMonotone(counts: seq<nat>, i: nat, j: nat)
    requires i <= j <= |counts|
    ensures Total(counts[..i]) <= Total(counts[..j])
    decreases j
  {
    if i < j {
      TotalMonotone(counts, i, j - 1);
      assert counts[..j][..j - 1] == counts[..j - 1];
    }
  }

  lemma ShapeOf(top: nat, l: Layer)
    requires WellFormed(top, l)
    ensures |l.keyRows| == l.head.chunkCount && |l.heads| == |l.groups| == |l.tokens| == l.head.rows
    ensures |l.visible| == |l.chunks| == l.head.rows
    ensures |l.q| == l.head.rows * l.head.qDim && |l.q| * 4 < top
    ensures |l.baseline| == |l.control| == Total(l.visible)
    ensures |l.keys| == |l.keyRows|
    ensures forall c :: 0 <= c < |l.keys| ==> |l.keys[c]| == l.keyRows[c] * l.head.keyDim && |l.keys[c]| * 4 < top
  {
    var cs, cv := ColumnSpecs(l.head), ColumnVals(l);
    assert forall i :: 0 <= i < 6 ==> |cv[i]| == cs[i].count;
    assert cv[0] == l.keyRows && cv[1] == l.heads && cv[2] == l.groups && cv[3] == l.tokens && cv[4] == l.visible
        && cv[5] == l.chunks;
    var ds, dv := DataSpecs(l.head, l.keyRows, l.visible), DataVals(l);
    assert dv[0] == l.q && dv[1] == l.baseline && dv[2] == l.control;
    assert |dv[0]| == ds[0].count && |dv[1]| == ds[1].count && |dv[2]| == ds[2].count;
    forall c | 0 <= c < |l.keys|
      ensures |l.keys[c]| == l.keyRows[c] * l.head.keyDim && |l.keys[c]| * 4 < top
    {
      assert dv[3 + c] == l.keys[c] && ds[3 + c] == KeySpecs(l.keyRows, l.head.keyDim)[c];
      assert |dv[3 + c]| == ds[3 + c].count;
    }
  }

  lemma QueryEnd(i: nat, rows: nat, dim: nat)
    requires i < rows
    ensures i * dim + dim <= rows * dim
  {
    TimesMonotone(i + 1, rows, dim);
  }

  lemma StartsStep(counts: seq<nat>, i: nat)
    requires i < |counts|
    ensures PrefixSums(counts)[i + 1] == PrefixSums(counts)[i] + counts[i] <= Total(counts)
  {
    TotalMonotone(counts, i + 1, |counts|);
    assert counts[..i + 1][..i] == counts[..i] && counts[..|counts|] == counts;
  }

  /** Every row of an accepted dataset can be taken, with slices of the right size. */
  lemma RowsInBounds(top: nat, l: Layer, i: nat)
    requires WellFormed(top, l) && i < l.head.rows
    ensures RowInBounds(l, i) && RowAt(top, l, i).Some?
    ensures var r := RowAt(top, l, i).value;
      |r.q| == l.head.qDim && |r.baseline| == |r.control| == r.visible && |r.keys| == r.visible * r.keyDim
  {
    ShapeOf(top, l);
    QueryEnd(i, l.head.rows, l.head.qDim);
    TimesMonotone(l.visible[i], l.keyRows[l.chunks[i]], l.head.keyDim);
    StartsStep(l.visible, i);
    RowFits(top, l, i);
  }

  lemma RowFits(top: nat, l: Layer, i: nat)
    requires i < l.head.rows && RowInBounds(l, i) && l.starts[i + 1] == l.starts[i] + l.visible[i]
    requires |l.q| < top && |l.keys[l.chunks[i]]| < top
    ensures RowAt(top, l, i).Some?
    ensures var r := RowAt(top, l, i).value;
      |r.q| == l.head.qDim && |r.baseline| == |r.control| == r.visible && |r.keys| == r.visible * r.keyDim
  {
    var a, k := i * l.head.qDim, l.visible[i] * l.head.keyDim;
    assert a + l.head.qDim < top && k < top;
    assert |l.q[a..a + l.head.qDim]| == l.head.qDim && |l.keys[l.chunks[i]][..k]| == k;
  }

  /** Increasing positions up to a bound. */
  predicate Rising(starts: seq<nat>, bound: nat) {
    forall i, j :: 0 <= i <= j < |starts| ==> starts[i] <= starts[j] <= bound
  }

  /** The slices of the first `n` rows, side by side. */
  function Slices(values: seq<nat>, starts: seq<nat>, n: nat): seq<nat>
    requires n < |starts| && Rising(starts, |values|)
  {
    if n == 0 then [] else Slices(values, starts, n - 1) + values[starts[n - 1]..starts[n]]
  }

  lemma {:induction false} SlicesJoin(values: seq<nat>, starts: seq<nat>, n: nat)
    requires n < |starts| && Rising(starts, |values|) && starts[0] == 0
    ensures Slices(values, starts, n) == values[..starts[n]]
  {
    if n > 0 {
      SlicesJoin(values, starts, n - 1);
    }
  }

  lemma StartsRise(counts: seq<nat>)
    ensures Rising(PrefixSums(counts), Total(counts))
    ensures PrefixSums(counts)[0] == 0 && PrefixSums(counts)[|counts|] == Total(counts)
  {
    var starts := PrefixSums(counts);
    assert counts[..|counts|] == counts;
    forall i, j | 0 <= i <= j < |starts|
      ensures starts[i] <= starts[j] <= Total(counts)
    {
      TotalMonotone(counts, i, j);
      TotalMonotone(counts, j, |counts|);
    }
  }

  /** The score slices of the rows partition both score arrays, in order. */
  lemma RowsPartition(top: nat, l: Layer)
    requires WellFormed(top, l)
    ensures Rising(l.starts, |l.baseline|) && |l.starts| == l.head.rows + 1 && |l.control| == |l.baseline|
    ensures Slices(l.baseline, l.starts, l.head.rows) == l.baseline
    ensures Slices(l.control, l.starts, l.head.rows) == l.control
  {
    ShapeOf(top, l);
    StartsRise(l.visible);
    SlicesJoin(l.baseline, l.starts, l.head.rows);
    SlicesJoin(l.control, l.starts, l.head.rows);
  }

  // ---- the loops ----------------------------------------------------------------------------------------

  method CheckRows(keyRows: seq<nat>, visible: seq<nat>, chunks: seq<nat>) returns (fine: bool)
    requires |chunks| == |visible|
    ensures fine == RowsFine(keyRows, visible, chunks)
  {
    var i := 0;
    while i < |visible|
      invariant 0 <= i <= |visible| && RowsFine(keyRows, visible[..i], chunks[..i])
    {
      if visible[i] == 0 || visible[i] > I32_MAX || chunks[i] > I32_MAX || chunks[i] >= |keyRows|
          || visible[i] > keyRows[chunks[i]] {
        return false;
      }
      i := i + 1;
    }
    assert visible[..i] == visible && chunks[..i] == chunks;
    fine := true;
  }

  /** The running totals of the visible counts. */
  method BuildStarts(visible: seq<nat>) returns (starts: seq<nat>, total: nat)
    ensures starts == PrefixSums(visible) && total == Total(visible)
  {
    starts, total := [], 0;
    var i := 0;
    while i < |visible|
      invariant 0 <= i <= |visible| && |starts| == i && total == Total(visible[..i])
      invariant forall k :: 0 <= k < i ==> starts[k] == Total(visible[..k])
    {
      starts := starts + [total];
      assert visible[..i + 1][..i] == visible[..i];
      total := total + visible[i];
      i := i + 1;
    }
    assert visible[..i] == visible;
    starts := starts + [total];
  }

  method CheckFinite(vals: seq<seq<nat>>) returns (fine: bool)
    ensures fine == AllFinite(vals)
  {
    var i := 0;
    while i < |vals|
      invariant 0 <= i <= |vals| && forall k :: 0 <= k < i ==> FiniteWords(vals[k])
    {
      var j := 0;
      while j < |vals[i]|
        invariant 0 <= j <= |vals[i]|
        invariant forall k :: 0 <= k < j ==> vals[i][k] < U32 && Weights.IsFinite(vals[i][k])
      {
        if vals[i][j] >= U32 || !Weights.IsFinite(vals[i][j]) {
          return false;
        }
        j := j + 1;
      }
      i := i + 1;
    }
    fine := true;
  }

  method ParseLayer(top: nat, raw: Bytes) returns (r: Option<Layer>)
    ensures r == Parse(top, raw)
  {
    var c := new Cursor(raw, 0);
    assert raw[0..] == raw;
    var vals := c.ReadSections(HeaderSpecs());
    if vals == None {
      return None;
    }
    TakenSectionsEncode(raw, HeaderSpecs());
    var h := HeadOf(vals.value);
    if h == None {
      return None;
    }
    r := ReadRows(top, h.value, c);
  }

  method ReadRows(top: nat, h: Head, c: Cursor) returns (r: Option<Layer>)
    requires c.Valid()
    modifies c`offset
    ensures r == ParseRows(top, h, old(c.Rest()))
  {
    ghost var b := c.Rest();
    var cols := c.ReadSections(ColumnSpecs(h));
    if cols == None {
      return None;
    }
    TakenSectionsEncode(b, ColumnSpecs(h));
    ColumnLengths(h, cols.value);
    var fine := CheckRows(cols.value[0], cols.value[4], cols.value[5]);
    if !fine {
      return None;
    }
    r := ReadData(top, h, cols.value, c);
  }

  lemma ColumnLengths(h: Head, cols: seq<seq<nat>>)
    requires Matches(ColumnSpecs(h), cols)
    ensures |cols| == 6 && |cols[4]| == |cols[5]|
  {
    assert |cols[4]| == ColumnSpecs(h)[4].count && |cols[5]| == ColumnSpecs(h)[5].count;
  }

  method ReadData(top: nat, h: Head, cols: seq<seq<nat>>, c: Cursor) returns (r: Option<Layer>)
    requires c.Valid() && |cols| == 6
    modifies c`offset
    ensures r == ParseData(top, h, cols, old(c.Rest()))
  {
    ghost var b := c.Rest();
    var starts, total := BuildStarts(cols[4]);
    var specs := [Section(4, h.rows * h.qDim), Section(4, total), Section(4, total)] + KeySpecs(cols[0], h.keyDim);
    if !Addressable(top, specs) {
      return None;
    }
    var data := c.ReadSections(specs);
    if data == None {
      return None;
    }
    TakenSectionsEncode(b, specs);
    var fine := CheckFinite(data.value);
    if !fine || c.offset != |c.bytes| {
      return None;
    }
    r := Some(Layer(h, cols[0], cols[1], cols[2], cols[3], cols[4], cols[5],
                    data.value[0], data.value[1], data.value[2], data.value[3..], starts));
  }
}
