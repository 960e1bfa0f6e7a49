/** Span-to-BIO conversion: character-span PROJECT annotations become one
    BIO tag per word token. A per-character label map is built from the
    spans (later spans overwrite earlier ones), then a cursor walks the
    token list over the text, skipping whitespace before each token, and
    the token takes the label of the character under the cursor. The
    cursor advances by the token's length without checking that the token
    really occurs there, so a tokenizer that rewrites characters makes it
    drift; the model keeps that behaviour. */
module AnnotationConverter {
  import opened Text
  import opened Labels

  /** One region of an annotation result: `value.start`, `value.end`, `value.labels`. */
  datatype Region = Region(start: int, end: int, labels: seq<string>)

  /** One annotation set of a record: its `result` list. */
  datatype Annotation = Annotation(result: seq<Region>)

  /** One corpus record: `data.text` and its `annotations`. */
  datatype Item = Item(text: string, annotations: seq<Annotation>)

  /** A word token and its BIO tag. */
  type TaggedToken = (string, string)

  /** Every region has a first label (`labels[0]` is read for each region). */
  predicate HasLabels(regions: seq<Region>) {
    forall k :: 0 <= k < |regions| ==> |regions[k].labels| > 0
  }

  /** What indexing a record demands: annotation set 0 exists and its regions have labels. */
  predicate Indexable(item: Item) {
    |item.annotations| > 0 && HasLabels(item.annotations[0].result)
  }

  /** Region `r` writes the label of character index `i`. */
  predicate Covers(r: Region, i: int)
    requires |r.labels| > 0
  {
    r.labels[0] == ProjectLabel && r.start <= i < r.end
  }

  /** `lo <= i < hi`: the indices `range(lo, hi)` yields. The map comprehensions
      below state their range twice on purpose: the bare comparisons let Dafny
      see that the map is finite, and this predicate gives the quantifier
      behind the comprehension a trigger, which bare comparisons cannot. */
  predicate InRange(i: int, lo: int, hi: int) {
    lo <= i < hi
  }

  /** The label map before any region is applied: `O` for every index of the text. */
  function InitialLabelMap(text: string): map<int, string> {
    map i | 0 <= i < |text| && InRange(i, 0, |text|) :: Outside
  }

  /** The labels one PROJECT region writes: `B-PROJECT` at its start, `I-PROJECT` after it. */
  function RegionLabels(start: int, end: int): map<int, string> {
    map i | start <= i < end && InRange(i, start, end) :: if i == start then Begin else Inside
  }

  /** The label map after applying region `r`; regions with another label change nothing. */
  function ApplyRegion(m: map<int, string>, r: Region): map<int, string>
    requires |r.labels| > 0
  {
    if r.labels[0] == ProjectLabel then m + RegionLabels(r.start, r.end) else m
  }

  /** The label map after applying `regions` in annotation order. */
  function LabelMap(text: string, regions: seq<Region>): map<int, string>
    requires HasLabels(regions)
  {
    if regions == [] then InitialLabelMap(text)
    else ApplyRegion(LabelMap(text, regions[..|regions| - 1]), regions[|regions| - 1])
  }

  /** An index no PROJECT region covers is `O` inside the text and absent outside it. */
  lemma {:induction false} LabelMapUncovered(text: string, regions: seq<Region>, i: int)
    requires HasLabels(regions)
    requires forall k :: 0 <= k < |regions| ==> !Covers(regions[k], i)
    ensures i in LabelMap(text, regions) <==> 0 <= i < |text|
    ensures i in LabelMap(text, regions) ==> LabelMap(text, regions)[i] == Outside
  {
    if regions != [] {
      LabelMapUncovered(text, regions[..|regions| - 1], i);
    }
  }

  /** Overlapping PROJECT regions: the last region covering an index decides its label. */
  lemma {:induction false} LabelMapLastWins(text: string, regions: seq<Region>, k: nat, i: int)
    requires HasLabels(regions)
    requires k < |regions| && Covers(regions[k], i)
    requires forall j :: k < j < |regions| ==> !Covers(regions[j], i)
    ensures i in LabelMap(text, regions)
    ensures LabelMap(text, regions)[i] == if i == regions[k].start then Begin else Inside
  {
    if k < |regions| - 1 {
      LabelMapLastWins(text, regions[..|regions| - 1], k, i);
    }
  }

  /** Every label in the map is one of `O`, `B-PROJECT`, `I-PROJECT`. */
  lemma {:induction false} LabelMapHoldsTags(text: string, regions: seq<Region>, i: int)
    requires HasLabels(regions)
    requires i in LabelMap(text, regions)
    ensures IsTag(LabelMap(text, regions)[i])
  {
    if regions != [] {
      var r := regions[|regions| - 1];
      if !(r.labels[0] == ProjectLabel && i in RegionLabels(r.start, r.end)) {
        LabelMapHoldsTags(text, regions[..|regions| - 1], i);
      }
    }
  }

  /** A `B-PROJECT` label sits exactly at the start offset of some PROJECT region. */
  lemma {:induction false} BeginMarksRegionStart(text: string, regions: seq<Region>, i: int)
    requires HasLabels(regions)
    requires i in LabelMap(text, regions) && LabelMap(text, regions)[i] == Begin
    ensures exists k :: 0 <= k < |regions| && Covers(regions[k], i) && regions[k].start == i
  {
    if regions == [] {
      assert false;
    } else {
      var n := |regions| - 1;
      var r := regions[n];
      if r.labels[0] == ProjectLabel && i in RegionLabels(r.start, r.end) {
        assert Covers(regions[n], i) && r.start == i;
      } else {
        BeginMarksRegionStart(text, regions[..n], i);
        var k :| 0 <= k < n && Covers(regions[..n][k], i) && regions[..n][k].start == i;
        assert regions[k] == regions[..n][k];
      }
    }
  }

  /** A region that is not PROJECT, or is empty (start >= end), leaves the map unchanged. */
  lemma RegionWithoutEffect(m: map<int, string>, r: Region)
    requires |r.labels| > 0
    requires r.labels[0] != ProjectLabel || r.start >= r.end
    ensures ApplyRegion(m, r) == m
  {
    if r.labels[0] == ProjectLabel {
      assert RegionLabels(r.start, r.end) == map[];
    }
  }

  /** Writing index `i` extends a region's labels by one index. */
  lemma RegionLabelsExtend(start: int, i: int)
    requires start <= i
    ensures RegionLabels(start, i + 1) == RegionLabels(start, i)[i := if i == start then Begin else Inside]
  {
  }

  lemma UpdateAfterUnion(a: map<int, string>, b: map<int, string>, k: int, v: string)
    ensures (a + b)[k := v] == a + b[k := v]
  {
  }

  /** The inner loop: writes `B-PROJECT` at `start` and `I-PROJECT` up to `end`;
      nothing when `start >= end`. */
  method WriteRegion(m0: map<int, string>, start: int, end: int) returns (m: map<int, string>)
    ensures m == m0 + RegionLabels(start, end)
  {
    m := m0;
    var i := start;
    while i < end
      invariant start <= i && (i <= end || i == start)
      invariant m == m0 + RegionLabels(start, i)
      decreases end - i
    {
      var tag := if i == start then Begin else Inside;
      RegionLabelsExtend(start, i);
      UpdateAfterUnion(m0, RegionLabels(start, i), i, tag);
      m := m[i := tag];
      i := i + 1;
    }
    assert RegionLabels(start, i) == RegionLabels(start, end);
  }

  /** Label maps are built by the nested loops of the converter: `O` everywhere,
      then each PROJECT region written index by index. */
  method BuildLabelMap(text: string, regions: seq<Region>) returns (m: map<int, string>)
    requires HasLabels(regions)
    ensures m == LabelMap(text, regions)
  {
    m := InitialLabelMap(text);
    for n := 0 to |regions|
      invariant m == LabelMap(text, regions[..n])
    {
      var r := regions[n];
      if r.labels[0] == ProjectLabel {
        m := WriteRegion(m, r.start, r.end);
      }
      assert regions[..n + 1][..n] == regions[..n];
    }
    assert regions[..|regions|] == regions;
  }

  /** The cursor after skipping whitespace from `idx`: it stops at the first
      non-whitespace character, or at the end of the text, and never moves
      back. */
  function SkipWhitespace(text: string, idx: nat): (j: nat)
    ensures idx <= j
    ensures j == idx || j <= |text|
    ensures j < |text| ==> !IsWhitespace(text[j])
    ensures forall k :: idx <= k < j ==> k < |text| && IsWhitespace(text[k])
    decreases |text| - idx
  {
    if idx < |text| && IsWhitespace(text[idx]) then SkipWhitespace(text, idx + 1) else idx
  }

  /** The cursor before token `k` skips whitespace: 0 for the first token,
      otherwise where the previous token was tagged plus its length. */
  function CursorBefore(text: string, tokens: seq<string>, k: nat): nat
    requires k <= |tokens|
    decreases k, 0
  {
    if k == 0 then 0 else TokenStart(text, tokens, k - 1) + |tokens[k - 1]|
  }

  /** Where the cursor stands when token `k` is tagged. */
  function TokenStart(text: string, tokens: seq<string>, k: nat): nat
    requires k < |tokens|
    decreases k, 1
  {
    SkipWhitespace(text, CursorBefore(text, tokens, k))
  }

  /** `label_map.get(i, 'O')`. */
  function TagAt(m: map<int, string>, i: int): string {
    if i in m then m[i] else Outside
  }

  /** The tagged tokens: each token, unchanged, with the label under the cursor. */
  function TaggedTokens(text: string, m: map<int, string>, tokens: seq<string>): seq<TaggedToken> {
    seq(|tokens|, k requires 0 <= k < |tokens| => (tokens[k], TagAt(m, TokenStart(text, tokens, k))))
  }

  /** The cursor never decreases: each token starts at or after the end of every earlier one. */
  lemma {:induction false} CursorAdvances(text: string, tokens: seq<string>, j: nat, k: nat)
    requires j < k < |tokens|
    ensures TokenStart(text, tokens, j) + |tokens[j]| <= TokenStart(text, tokens, k)
  {
    assert CursorBefore(text, tokens, k) == TokenStart(text, tokens, k - 1) + |tokens[k - 1]|;
    if j < k - 1 {
      CursorAdvances(text, tokens, j, k - 1);
    }
  }

  /** One tagged token per input token, in order, with the token text unchanged
      and a tag from the BIO vocabulary. */
  lemma TaggedTokensShape(text: string, regions: seq<Region>, tokens: seq<string>)
    requires HasLabels(regions)
    ensures |TaggedTokens(text, LabelMap(text, regions), tokens)| == |tokens|
    ensures forall k :: 0 <= k < |tokens| ==>
      && TaggedTokens(text, LabelMap(text, regions), tokens)[k].0 == tokens[k]
      && IsTag(TaggedTokens(text, LabelMap(text, regions), tokens)[k].1)
  {
    var m := LabelMap(text, regions);
    forall k | 0 <= k < |tokens| ensures IsTag(TagAt(m, TokenStart(text, tokens, k))) {
      var i := TokenStart(text, tokens, k);
      if i in m {
        LabelMapHoldsTags(text, regions, i);
      }
    }
  }

  /** What one record becomes: its text, unchanged, and its tokens tagged from
      the label map of its first annotation set. */
  function ConvertItem(item: Item, wordTokenize: string -> seq<string>): (string, seq<TaggedToken>)
    requires Indexable(item)
  {
    (item.text, TaggedTokens(item.text, LabelMap(item.text, item.annotations[0].result), wordTokenize(item.text)))
  }

  /** The inner cursor loop: step over whitespace until a non-space
      character or the end of the text. */
  method SkipSpaces(text: string, idx: nat) returns (j: nat)
    ensures j == SkipWhitespace(text, idx)
  {
    j := idx;
    while j < |text| && IsWhitespace(text[j])
      invariant SkipWhitespace(text, j) == SkipWhitespace(text, idx)
      decreases |text| - j
    {
      j := j + 1;
    }
  }

  /** The token walk: skip whitespace, read the label under the cursor, advance
      by the token's length. */
  method AlignTokens(text: string, m: map<int, string>, tokens: seq<string>) returns (pairs: seq<TaggedToken>)
    ensures pairs == TaggedTokens(text, m, tokens)
  {
    pairs := [];
    var idx: nat := 0;
    ghost var spec := TaggedTokens(text, m, tokens);
    for n := 0 to |tokens|
      invariant pairs == spec[..n]
      invariant idx == CursorBefore(text, tokens, n)
    {
      idx := SkipSpaces(text, idx);
      assert idx == TokenStart(text, tokens, n);
      assert spec[n] == (tokens[n], TagAt(m, idx));
      assert spec[..n + 1] == spec[..n] + [spec[n]];
      pairs := pairs + [(tokens[n], TagAt(m, idx))];
      idx := idx + |tokens[n]|;
      assert idx == CursorBefore(text, tokens, n + 1);
    }
    assert spec[..|tokens|] == spec;
  }

  /** `extract_project_entities`: one (text, tagged tokens) record per input
      record, built from its text and its first annotation set only. */
  method ExtractProjectEntities(data: seq<Item>, wordTokenize: string -> seq<string>)
    returns (dataset: seq<(string, seq<TaggedToken>)>)
    requires forall k :: 0 <= k < |data| ==> Indexable(data[k])
    ensures |dataset| == |data|
    ensures forall k :: 0 <= k < |data| ==> dataset[k] == ConvertItem(data[k], wordTokenize)
  {
    dataset := [];
    for n := 0 to |data|
      invariant |dataset| == n
      invariant forall k :: 0 <= k < n ==> dataset[k] == ConvertItem(data[k], wordTokenize)
    {
      var text := data[n].text;
      var labelMap := BuildLabelMap(text, data[n].annotations[0].result);
      var tokens := wordTokenize(text);
      var tokenLabels := AlignTokens(text, labelMap, tokens);
      dataset := dataset + [(text, tokenLabels)];
    }
  }
}
