/** Token-to-subword label alignment. The tokenizer splits each word into
    subwords and reports, per subword position, the index of the word it
    came from (or none, for special and padding positions). Each position
    gets one label id: the ignore sentinel where there is no word, the
    word's tag id at its first subword, and at a continuation subword the
    id of the tag with `B-` rewritten to `I-`. */
module DatasetPreparer {
  import opened Wrappers
  import opened Text
  import opened Labels
  import AnnotationConverter

  type TaggedToken = AnnotationConverter.TaggedToken

  /** The label id of positions that belong to no word; the loss skips them. */
  const IgnoreIndex: int := -100

  /** `s.replace("B-", "I-")`: every occurrence, left to right. */
  function ReplaceBeginMarker(s: string): string {
    if |s| >= 2 && s[0] == 'B' && s[1] == '-' then "I-" + ReplaceBeginMarker(s[2..])
    else if s == [] then []
    else [s[0]] + ReplaceBeginMarker(s[1..])
  }

  /** The replacement keeps the length and turns exactly the `B` of each `B-` into `I`. */
  lemma {:induction false} ReplaceBeginMarkerAt(s: string)
    ensures |ReplaceBeginMarker(s)| == |s|
    ensures forall i {:trigger ReplaceBeginMarker(s)[i]} :: 0 <= i < |s| ==>
      ReplaceBeginMarker(s)[i] == if s[i] == 'B' && i + 1 < |s| && s[i + 1] == '-' then 'I' else s[i]
  {
    if s == [] {
    } else {
      var n := if |s| >= 2 && s[0] == 'B' && s[1] == '-' then 2 else 1;
      var t := s[n..];
      ReplaceBeginMarkerAt(t);
      var r := ReplaceBeginMarker(s);
      assert r == (if n == 2 then "I-" else [s[0]]) + ReplaceBeginMarker(t);
      forall i | 0 <= i < |s|
        ensures r[i] == if s[i] == 'B' && i + 1 < |s| && s[i + 1] == '-' then 'I' else s[i]
      {
        if i >= n {
          var j := i - n;
          assert r[i] == ReplaceBeginMarker(t)[j];
          assert ReplaceBeginMarker(t)[j] == if t[j] == 'B' && j + 1 < |t| && t[j + 1] == '-' then 'I' else t[j];
          assert s[i] == t[j];
          assert j + 1 < |t| <==> i + 1 < |s|;
          assert i + 1 < |s| ==> s[i + 1] == t[j + 1];
        } else if i == 0 {
          assert r[0] == if n == 2 then 'I' else s[0];
        } else {
          assert r[1] == '-' == s[1];
        }
      }
    }
  }

  /** The tag a continuation subword is trained on. */
  function ContinuationLabel(tag: string): string {
    if StartsWith(tag, "B-") then ReplaceBeginMarker(tag) else tag
  }

  /** Continuations of a `B-PROJECT` word read `I-PROJECT`; `O` and `I-PROJECT` stay as they are. */
  lemma ContinuationOfTags()
    ensures ContinuationLabel(Begin) == Inside
    ensures ContinuationLabel(Outside) == Outside
    ensures ContinuationLabel(Inside) == Inside
  {
    ReplaceBeginMarkerAt(Begin);
    assert StartsWith(Begin, "B-");
    assert !StartsWith(Outside, "B-") && !StartsWith(Inside, "B-");
  }

  /** Position `k` is a word's first subword: the previous position (none
      before position 0) carried a different word index, or no word. */
  predicate StartsWord(wordIds: seq<Option<nat>>, k: nat)
    requires k < |wordIds|
  {
    k == 0 || wordIds[k - 1] != wordIds[k]
  }

  /** The tag looked up in `label2id` for position `k`, which belongs to a word. */
  function LookedUpLabel(wordIds: seq<Option<nat>>, labelSeq: seq<string>, k: nat): string
    requires k < |wordIds| && wordIds[k].Some? && wordIds[k].value < |labelSeq|
  {
    var tag := labelSeq[wordIds[k].value];
    if StartsWord(wordIds, k) then tag else ContinuationLabel(tag)
  }

  /** What the encoder demands: every word index is a valid tag position and
      every looked-up tag is in `label2id` (otherwise indexing raises). */
  predicate Encodable(wordIds: seq<Option<nat>>, labelSeq: seq<string>) {
    forall k :: 0 <= k < |wordIds| && wordIds[k].Some? ==>
      wordIds[k].value < |labelSeq| && LookedUpLabel(wordIds, labelSeq, k) in Label2Id
  }

  /** The label id of subword position `k`. */
  function SubwordLabelId(wordIds: seq<Option<nat>>, labelSeq: seq<string>, k: nat): int
    requires Encodable(wordIds, labelSeq) && k < |wordIds|
  {
    match wordIds[k]
    case None => IgnoreIndex
    case Some(_) => Label2Id[LookedUpLabel(wordIds, labelSeq, k)]
  }

  /** `labelIds` has one id per subword position, each the id that position calls for. */
  predicate EncodesLabels(labelIds: seq<int>, wordIds: seq<Option<nat>>, labelSeq: seq<string>)
    requires Encodable(wordIds, labelSeq)
  {
    |labelIds| == |wordIds| && forall k :: 0 <= k < |wordIds| ==> labelIds[k] == SubwordLabelId(wordIds, labelSeq, k)
  }

  /** The ignore sentinel appears exactly at the positions that belong to no word. */
  lemma IgnoreExactlyWithoutWord(wordIds: seq<Option<nat>>, labelSeq: seq<string>, k: nat)
    requires Encodable(wordIds, labelSeq) && k < |wordIds|
    ensures SubwordLabelId(wordIds, labelSeq, k) == IgnoreIndex <==> wordIds[k].None?
    ensures wordIds[k].Some? ==> 0 <= SubwordLabelId(wordIds, labelSeq, k) <= 2
  {
    if wordIds[k].Some? {
      assert LookedUpLabel(wordIds, labelSeq, k) in Label2Id;
    }
  }

  /** A word tagged `B-PROJECT` and split into the contiguous subwords
      `a .. b-1` opens with the `B-PROJECT` id and continues with `I-PROJECT`. */
  lemma SplitBeginWord(wordIds: seq<Option<nat>>, labelSeq: seq<string>, w: nat, a: nat, b: nat)
    requires Encodable(wordIds, labelSeq)
    requires a < b <= |wordIds| && StartsWord(wordIds, a)
    requires forall j :: a <= j < b ==> wordIds[j] == Some(w)
    requires w < |labelSeq| && labelSeq[w] == Begin
    ensures SubwordLabelId(wordIds, labelSeq, a) == Label2Id[Begin]
    ensures forall j :: a < j < b ==> SubwordLabelId(wordIds, labelSeq, j) == Label2Id[Inside]
  {
    ContinuationOfTags();
    forall j | a < j < b ensures SubwordLabelId(wordIds, labelSeq, j) == Label2Id[Inside] {
      assert wordIds[j - 1] == wordIds[j];
    }
  }

  /** Word indices within the tag sequence and tags from the BIO vocabulary are
      all the encoder needs. */
  lemma TagsEncodable(wordIds: seq<Option<nat>>, labelSeq: seq<string>)
    requires forall k :: 0 <= k < |wordIds| && wordIds[k].Some? ==> wordIds[k].value < |labelSeq|
    requires forall j :: 0 <= j < |labelSeq| ==> IsTag(labelSeq[j])
    ensures Encodable(wordIds, labelSeq)
  {
    ContinuationOfTags();
  }

  /** `encode_examples`: one label-id list per example, in batch order. The
      tokenizer is outside the model; its `word_ids` for example `i` are
      `wordIdsBatch[i]`. */
  method EncodeExamples(labelSeqs: seq<seq<string>>, wordIdsBatch: seq<seq<Option<nat>>>)
    returns (labels: seq<seq<int>>)
    requires |wordIdsBatch| == |labelSeqs|
    requires forall i :: 0 <= i < |labelSeqs| ==> Encodable(wordIdsBatch[i], labelSeqs[i])
    ensures |labels| == |labelSeqs|
    ensures forall i :: 0 <= i < |labelSeqs| ==> EncodesLabels(labels[i], wordIdsBatch[i], labelSeqs[i])
  {
    labels := [];
    for i := 0 to |labelSeqs|
      invariant |labels| == i
      invariant forall j :: 0 <= j < i ==> EncodesLabels(labels[j], wordIdsBatch[j], labelSeqs[j])
    {
      var labelSeq := labelSeqs[i];
      var wordIds := wordIdsBatch[i];
      var labelIds: seq<int> := [];
      var previousWordIdx: Option<nat> := None;
      for k := 0 to |wordIds|
        invariant |labelIds| == k
        invariant forall j :: 0 <= j < k ==> labelIds[j] == SubwordLabelId(wordIds, labelSeq, j)
        invariant previousWordIdx == if k == 0 then None else wordIds[k - 1]
      {
        var wordIdx := wordIds[k];
        if wordIdx.None? {
          labelIds := labelIds + [IgnoreIndex];
        } else if wordIdx != previousWordIdx {
          labelIds := labelIds + [Label2Id[labelSeq[wordIdx.value]]];
        } else {
          var tag := labelSeq[wordIdx.value];
          if StartsWith(tag, "B-") {
            tag := ReplaceBeginMarker(tag);
          }
          labelIds := labelIds + [Label2Id[tag]];
        }
        previousWordIdx := wordIdx;
      }
      labels := labels + [labelIds];
    }
  }

  /** The two columns handed to the dataset: per example, its tokens and its tags. */
  datatype DatasetColumns = DatasetColumns(tokens: seq<seq<string>>, labels: seq<seq<string>>)

  /** `[tok for tok, _ in pairs]`. */
  function TokensOf(pairs: seq<TaggedToken>): seq<string> {
    seq(|pairs|, k requires 0 <= k < |pairs| => pairs[k].0)
  }

  /** `[lbl for _, lbl in pairs]`. */
  function TagsOf(pairs: seq<TaggedToken>): seq<string> {
    seq(|pairs|, k requires 0 <= k < |pairs| => pairs[k].1)
  }

  function Zip(tokens: seq<string>, tags: seq<string>): seq<TaggedToken>
    requires |tokens| == |tags|
  {
    seq(|tokens|, k requires 0 <= k < |tokens| => (tokens[k], tags[k]))
  }

  /** Unzipping loses nothing: the two columns have equal length and zip back to the pairs. */
  lemma UnzipRoundTrip(pairs: seq<TaggedToken>)
    ensures |TokensOf(pairs)| == |TagsOf(pairs)| == |pairs|
    ensures Zip(TokensOf(pairs), TagsOf(pairs)) == pairs
  {
  }

  /** `build_dataset`: the text of each example is dropped and its pairs are
      unzipped into the two columns, in example order. */
  method BuildDataset(tokenLabelPairs: seq<(string, seq<TaggedToken>)>) returns (data: DatasetColumns)
    ensures |data.tokens| == |tokenLabelPairs| && |data.labels| == |tokenLabelPairs|
    ensures forall i :: 0 <= i < |tokenLabelPairs| ==>
      data.tokens[i] == TokensOf(tokenLabelPairs[i].1) && data.labels[i] == TagsOf(tokenLabelPairs[i].1)
  {
    data := DatasetColumns([], []);
    for i := 0 to |tokenLabelPairs|
      invariant |data.tokens| == i && |data.labels| == i
      invariant forall j :: 0 <= j < i ==>
        data.tokens[j] == TokensOf(tokenLabelPairs[j].1) && data.labels[j] == TagsOf(tokenLabelPairs[j].1)
    {
      var tokenLabelList := tokenLabelPairs[i].1;
      var tokens := TokensOf(tokenLabelList);
      var labels := TagsOf(tokenLabelList);
      data := DatasetColumns(data.tokens + [tokens], data.labels + [labels]);
    }
  }

  /** The converter's output feeds the encoder safely: for any word alignment
      that stays within a record's tokens, the record's tags can be encoded. */
  lemma ConvertedTagsEncodable(item: AnnotationConverter.Item, wordTokenize: string -> seq<string>, wordIds: seq<Option<nat>>)
    requires AnnotationConverter.Indexable(item)
    requires forall k :: 0 <= k < |wordIds| && wordIds[k].Some? ==> wordIds[k].value < |wordTokenize(item.text)|
    ensures Encodable(wordIds, TagsOf(AnnotationConverter.ConvertItem(item, wordTokenize).1))
  {
    var regions := item.annotations[0].result;
    var tokens := wordTokenize(item.text);
    AnnotationConverter.TaggedTokensShape(item.text, regions, tokens);
    TagsEncodable(wordIds, TagsOf(AnnotationConverter.ConvertItem(item, wordTokenize).1));
  }
}
