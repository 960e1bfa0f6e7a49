/** Mention extraction: the entities the model predicts on a page are
    filtered down to the PROJECT group, and each becomes a mention record
    with a context sentence, the text from 150 characters before the
    mention to 150 characters after it, stripped and with every whitespace
    run collapsed to one space. The model itself is outside: its aggregated
    entities are an input. */
module InferNer {
  import opened Wrappers
  import opened Text
  import Labels

  /** Characters of context taken on each side of a mention. */
  const ContextWindow: nat := 150

  /** One aggregated prediction: `entity_group`, `start`, `end`, `word`. */
  datatype Entity = Entity(entityGroup: string, start: nat, end: nat, word: string)

  /** One output record; `coordinates` is filled in later by the resolver. */
  datatype MentionRecord = MentionRecord(
    pdfFile: string,
    pageNumber: int,
    projectName: string,
    contextSentence: string,
    coordinates: Option<seq<real>>)

  /** Python's `s[lo:hi]` for non-negative bounds: both clipped to the
      string, empty when they cross. */
  function Slice(s: string, lo: nat, hi: nat): (r: string)
    ensures |r| <= if lo <= hi then hi - lo else 0
    ensures lo < |s| && lo <= hi ==> r == s[lo..if hi < |s| then hi else |s|]
    ensures |s| <= lo ==> r == []
  {
    var a := if lo < |s| then lo else |s|;
    var b := if hi < |s| then hi else |s|;
    if a < b then s[a..b] else []
  }

  /** Every whitespace character is a plain space and no two of them are side by side. */
  predicate SingleSpaced(s: string) {
    && (forall i :: 0 <= i < |s| && IsWhitespace(s[i]) ==> s[i] == ' ')
    && (forall i :: 0 <= i < |s| - 1 ==> !(IsWhitespace(s[i]) && IsWhitespace(s[i + 1])))
  }

  /** Single-spaced, and no whitespace at either end. */
  predicate Normalized(s: string) {
    && (s == [] || (!IsWhitespace(s[0]) && !IsWhitespace(s[|s| - 1])))
    && SingleSpaced(s)
  }

  lemma SingleSpacedTail(s: string)
    requires s != [] && SingleSpaced(s)
    ensures SingleSpaced(s[1..])
  {
    var t := s[1..];
    forall i | 0 <= i < |t| && IsWhitespace(t[i]) ensures t[i] == ' ' {
      assert t[i] == s[i + 1];
    }
    forall i | 0 <= i < |t| - 1 ensures !(IsWhitespace(t[i]) && IsWhitespace(t[i + 1])) {
      assert t[i] == s[i + 1] && t[i + 1] == s[i + 2];
    }
  }

  /** A leading whitespace character of a single-spaced text is a space
      followed by something else. */
  lemma SingleSpacedHead(s: string)
    requires s != [] && SingleSpaced(s) && IsWhitespace(s[0])
    ensures s[0] == ' ' && (|s| == 1 || !IsWhitespace(s[1]))
  {
    if |s| > 1 {
      assert !(IsWhitespace(s[0]) && IsWhitespace(s[0 + 1]));
    }
  }

  /** `re.sub(r"\s+", " ", s)`: each maximal whitespace run becomes one space. */
  function CollapseWhitespace(s: string): (r: string)
    ensures |r| <= |s|
    ensures SingleSpaced(r)
    ensures r == [] <==> s == []
    ensures r != [] ==> (IsWhitespace(r[0]) <==> IsWhitespace(s[0]))
    ensures r != [] ==> (IsWhitespace(r[|r| - 1]) <==> IsWhitespace(s[|s| - 1]))
    decreases |s|
  {
    if s == [] then []
    else if IsWhitespace(s[0]) then
      var tail := CollapseWhitespace(TrimStart(s));
      SingleSpacedCons(' ', tail);
      [' '] + tail
    else
      var tail := CollapseWhitespace(s[1..]);
      SingleSpacedCons(s[0], tail);
      [s[0]] + tail
  }

  /** Putting a character in front keeps a text single-spaced, unless it is
      whitespace other than a space or whitespace meets whitespace. */
  lemma SingleSpacedCons(c: char, t: string)
    requires SingleSpaced(t)
    requires IsWhitespace(c) ==> c == ' ' && (t == [] || !IsWhitespace(t[0]))
    ensures SingleSpaced([c] + t)
  {
    var r := [c] + t;
    forall i | 1 <= i < |r| ensures r[i] == t[i - 1] {
    }
  }

  /** A character-by-character reading of `re.sub(r"\s+", " ", s)`: a
      whitespace character becomes a space when it starts a run and is dropped
      when it follows whitespace (`prevWs`); every other character is kept. */
  function CollapseRef(s: string, prevWs: bool): string
  {
    if s == [] then []
    else if IsWhitespace(s[0]) then (if prevWs then [] else [' ']) + CollapseRef(s[1..], true)
    else [s[0]] + CollapseRef(s[1..], false)
  }

  /** After whitespace, a further whitespace run adds nothing. */
  lemma {:induction false} CollapseRefSkipsRun(s: string)
    ensures CollapseRef(s, true) == CollapseRef(TrimStart(s), true)
  {
    if s != [] && IsWhitespace(s[0]) {
      CollapseRefSkipsRun(s[1..]);
      assert CollapseRef(s, true) == CollapseRef(s[1..], true);
    }
  }

  /** The run-at-a-time collapse agrees with the character-at-a-time
      reference: every whitespace run, wherever it is, becomes exactly one
      space, and nothing else changes. */
  lemma {:induction false} CollapseMatchesRef(s: string)
    ensures CollapseWhitespace(s) == CollapseRef(s, false)
    decreases |s|
  {
    if s != [] {
      if IsWhitespace(s[0]) {
        var t := TrimStart(s);
        CollapseRefSkipsRun(s[1..]);
        assert TrimStart(s[1..]) == t;
        CollapseMatchesRef(t);
        assert CollapseRef(t, true) == CollapseRef(t, false);
      } else {
        CollapseMatchesRef(s[1..]);
      }
    }
  }

  /** `str.strip()` followed by the whitespace collapse. */
  function Normalize(s: string): (r: string)
    ensures |r| <= |s|
    ensures Normalized(r)
  {
    CollapseWhitespace(Strip(s))
  }

  /** Normalizing is the character-at-a-time collapse of the stripped text. */
  lemma NormalizeMatchesRef(s: string)
    ensures Normalize(s) == CollapseRef(Strip(s), false)
  {
    CollapseMatchesRef(Strip(s));
  }

  /** The raw window around a mention: up to `window` characters before
      `start`, the mention `text[start:end]`, up to `window` characters from
      `end`, each clipped at the text's bounds. */
  function RawWindow(text: string, start: nat, end: nat, window: nat): string {
    var pre := Slice(text, if start >= window then start - window else 0, start);
    var mention := Slice(text, start, end);
    var post := Slice(text, end, end + window);
    pre + mention + post
  }

  /** `_get_context`: the normalized window. It is at most the mention's
      length plus twice the window long, because normalizing only removes
      characters. */
  function GetContext(text: string, start: nat, end: nat, window: nat): (r: string)
    ensures |r| <= (if start < end then end - start else 0) + 2 * window
    ensures Normalized(r)
  {
    Normalize(RawWindow(text, start, end, window))
  }

  /** For a well-ordered span the raw window is one contiguous slice of the
      text, from `start - window` (clipped at 0) to `end + window` (clipped at
      the end). */
  lemma RawWindowIsSlice(text: string, start: nat, end: nat, window: nat)
    requires start <= end <= |text|
    ensures var lo := if start >= window then start - window else 0;
            var hi := if end + window <= |text| then end + window else |text|;
            RawWindow(text, start, end, window) == text[lo..hi]
  {
    var lo := if start >= window then start - window else 0;
    var hi := if end + window <= |text| then end + window else |text|;
    var pre := Slice(text, lo, start);
    var mention := Slice(text, start, end);
    var post := Slice(text, end, end + window);
    SliceWithin(text, lo, start);
    SliceWithin(text, start, end);
    SliceWithin(text, end, end + window);
    JoinThree(text, lo, start, end, hi, pre, mention, post);
    assert RawWindow(text, start, end, window) == pre + mention + post;
  }

  lemma JoinThree(s: string, a: nat, b: nat, c: nat, d: nat, x: string, y: string, z: string)
    requires a <= b <= c <= d <= |s|
    requires x == s[a..b] && y == s[b..c] && z == s[c..d]
    ensures x + y + z == s[a..d]
  {
    SlicesJoin(s, a, b, c);
    SlicesJoin(s, a, c, d);
  }

  /** A slice that starts inside the text is the text clipped at its end. */
  lemma SliceWithin(s: string, lo: nat, hi: nat)
    requires lo <= hi && lo <= |s|
    ensures Slice(s, lo, hi) == s[lo..if hi < |s| then hi else |s|]
  {
  }

  lemma SlicesJoin(s: string, a: nat, b: nat, c: nat)
    requires a <= b <= c <= |s|
    ensures s[a..b] + s[b..c] == s[a..c]
  {
    assert forall i :: 0 <= i < c - a ==> (s[a..b] + s[b..c])[i] == s[a..c][i];
  }

  /** A zero-length span yields an empty mention slice. */
  lemma EmptySpanEmptyMention(text: string, start: nat)
    ensures Slice(text, start, start) == []
  {
  }

  /** The non-whitespace characters of `s`, in order. */
  function Visible(s: string): string {
    if s == [] then [] else (if IsWhitespace(s[0]) then [] else [s[0]]) + Visible(s[1..])
  }

  lemma {:induction false} VisibleConcat(a: string, b: string)
    ensures Visible(a + b) == Visible(a) + Visible(b)
  {
    if a != [] {
      assert (a + b)[0] == a[0] && (a + b)[1..] == a[1..] + b;
      VisibleConcat(a[1..], b);
      var h := if IsWhitespace(a[0]) then [] else [a[0]];
      calc {
        Visible(a + b);
        h + Visible(a[1..] + b);
        h + (Visible(a[1..]) + Visible(b));
        (h + Visible(a[1..])) + Visible(b);
      }
    } else {
      assert a + b == b;
    }
  }

  lemma {:induction false} VisibleOfWhitespace(s: string)
    requires forall i :: 0 <= i < |s| ==> IsWhitespace(s[i])
    ensures Visible(s) == []
  {
    if s != [] {
      VisibleOfWhitespace(s[1..]);
    }
  }

  /** A slice with only whitespace around it has the same visible characters. */
  lemma VisibleSurrounded(s: string, r: string, a: nat)
    requires SurroundedByWhitespace(s, r, a)
    ensures Visible(r) == Visible(s)
  {
    var pre, post := s[..a], s[a + |r|..];
    forall i | 0 <= i < |pre| ensures IsWhitespace(pre[i]) {
      assert pre[i] == s[i];
    }
    forall i | 0 <= i < |post| ensures IsWhitespace(post[i]) {
      assert post[i] == s[a + |r| + i];
    }
    VisibleOfWhitespace(pre);
    VisibleOfWhitespace(post);
    VisibleConcat(pre, r);
    VisibleConcat(pre + r, post);
    SplitInThree(s, r, a);
  }

  lemma SplitInThree(s: string, r: string, a: nat)
    requires a + |r| <= |s| && r == s[a..a + |r|]
    ensures s == s[..a] + r + s[a + |r|..]
  {
    assert forall i :: 0 <= i < |s| ==> s[i] == (s[..a] + r + s[a + |r|..])[i];
  }

  /** Stripping removes whitespace only. */
  lemma VisibleStrip(s: string)
    ensures Visible(Strip(s)) == Visible(s)
  {
    VisibleSurrounded(s, Strip(s), |s| - |TrimStart(s)|);
  }

  /** Collapsing whitespace runs removes whitespace only. */
  lemma {:induction false} VisibleCollapse(s: string)
    ensures Visible(CollapseWhitespace(s)) == Visible(s)
    decreases |s|
  {
    if s == [] {
    } else if IsWhitespace(s[0]) {
      var rest := TrimStart(s);
      var k := |s| - |rest|;
      assert s == s[..k] + rest;
      VisibleConcat(s[..k], rest);
      VisibleOfWhitespace(s[..k]);
      VisibleCollapse(rest);
      VisibleConcat([' '], CollapseWhitespace(rest));
    } else {
      VisibleCollapse(s[1..]);
      VisibleConcat([s[0]], CollapseWhitespace(s[1..]));
    }
  }

  /** Normalizing keeps every non-whitespace character, in order. */
  lemma NormalizeKeepsVisible(s: string)
    ensures Visible(Normalize(s)) == Visible(s)
  {
    VisibleStrip(s);
    VisibleCollapse(Strip(s));
  }

  /** A string with single plain spaces between non-whitespace characters is
      left alone by the collapse. */
  lemma {:induction false} CollapseFixpoint(s: string)
    requires SingleSpaced(s)
    ensures CollapseWhitespace(s) == s
  {
    if s != [] {
      var t := s[1..];
      SingleSpacedTail(s);
      CollapseFixpoint(t);
      assert s == [s[0]] + t;
      if IsWhitespace(s[0]) {
        SingleSpacedHead(s);
        assert TrimStart(t) == t;
      }
    }
  }

  /** Normalization is idempotent: normalizing a context again changes nothing. */
  lemma NormalizeIdempotent(s: string)
    ensures Normalize(Normalize(s)) == Normalize(s)
  {
    var r := Normalize(s);
    assert TrimStart(r) == r;
    assert TrimEnd(r) == r;
    CollapseFixpoint(r);
  }

  /** One record per PROJECT entity: pdf file and page unchanged, the
      entity's word as project name, its context, no coordinates yet. */
  function MentionOf(text: string, pdfFile: string, pageNumber: int, e: Entity): MentionRecord {
    MentionRecord(pdfFile, pageNumber, e.word, GetContext(text, e.start, e.end, ContextWindow), None)
  }

  /** The entities of the PROJECT group, in input order. */
  function ProjectEntities(entities: seq<Entity>): seq<Entity> {
    if entities == [] then []
    else (if entities[0].entityGroup == Labels.ProjectLabel then [entities[0]] else [])
         + ProjectEntities(entities[1..])
  }

  /** One record per entity, built by `build`, in order. */
  function Records(build: Entity -> MentionRecord, kept: seq<Entity>): seq<MentionRecord> {
    if kept == [] then []
    else [build(kept[0])] + Records(build, kept[1..])
  }

  lemma {:induction false} RecordsAt(build: Entity -> MentionRecord, kept: seq<Entity>)
    ensures |Records(build, kept)| == |kept|
    ensures forall k :: 0 <= k < |kept| ==> Records(build, kept)[k] == build(kept[k])
  {
    if kept != [] {
      RecordsAt(build, kept[1..]);
    }
  }

  lemma {:induction false} RecordsConcat(build: Entity -> MentionRecord, a: seq<Entity>, b: seq<Entity>)
    ensures Records(build, a + b) == Records(build, a) + Records(build, b)
  {
    if a != [] {
      assert (a + b)[0] == a[0] && (a + b)[1..] == a[1..] + b;
      RecordsConcat(build, a[1..], b);
    } else {
      assert a + b == b;
    }
  }

  /** The records of the given entities, one each, in order. */
  function Mentions(text: string, pdfFile: string, pageNumber: int, kept: seq<Entity>): seq<MentionRecord> {
    Records(e => MentionOf(text, pdfFile, pageNumber, e), kept)
  }

  /** The records `extract_project_mentions` returns. */
  function ProjectMentions(text: string, pdfFile: string, pageNumber: int, entities: seq<Entity>): seq<MentionRecord> {
    Mentions(text, pdfFile, pageNumber, ProjectEntities(entities))
  }

  /** One record per kept entity, each built from that entity. */
  lemma MentionsAt(text: string, pdfFile: string, pageNumber: int, kept: seq<Entity>)
    ensures |Mentions(text, pdfFile, pageNumber, kept)| == |kept|
    ensures forall k :: 0 <= k < |kept| ==>
      Mentions(text, pdfFile, pageNumber, kept)[k] == MentionOf(text, pdfFile, pageNumber, kept[k])
  {
    RecordsAt(e => MentionOf(text, pdfFile, pageNumber, e), kept);
  }

  /** Filtering distributes over concatenation: every entity is kept or
      dropped on its own, and the kept ones stay in order. */
  lemma {:induction false} ProjectEntitiesConcat(a: seq<Entity>, b: seq<Entity>)
    ensures ProjectEntities(a + b) == ProjectEntities(a) + ProjectEntities(b)
  {
    if a != [] {
      assert (a + b)[0] == a[0] && (a + b)[1..] == a[1..] + b;
      ProjectEntitiesConcat(a[1..], b);
      var h := if a[0].entityGroup == Labels.ProjectLabel then [a[0]] else [];
      calc {
        ProjectEntities(a + b);
        h + ProjectEntities(a[1..] + b);
        h + (ProjectEntities(a[1..]) + ProjectEntities(b));
        (h + ProjectEntities(a[1..])) + ProjectEntities(b);
      }
    } else {
      assert a + b == b;
    }
  }

  /** Exactly the PROJECT entities are kept. */
  lemma {:induction false} ProjectEntitiesMembers(entities: seq<Entity>, e: Entity)
    ensures e in ProjectEntities(entities) <==> e in entities && e.entityGroup == Labels.ProjectLabel
  {
    if entities != [] {
      ProjectEntitiesMembers(entities[1..], e);
      assert e in entities <==> e == entities[0] || e in entities[1..];
    }
  }

  /** One more entity adds its record exactly when it is of the PROJECT group. */
  lemma ProjectMentionsStep(text: string, pdfFile: string, pageNumber: int, entities: seq<Entity>, n: nat)
    requires n < |entities|
    ensures ProjectMentions(text, pdfFile, pageNumber, entities[..n + 1])
         == ProjectMentions(text, pdfFile, pageNumber, entities[..n])
            + (if entities[n].entityGroup == Labels.ProjectLabel then [MentionOf(text, pdfFile, pageNumber, entities[n])] else [])
  {
    var e := entities[n];
    var kept := ProjectEntities(entities[..n]);
    assert entities[..n + 1] == entities[..n] + [e];
    ProjectEntitiesConcat(entities[..n], [e]);
    RecordsConcat(x => MentionOf(text, pdfFile, pageNumber, x), kept, ProjectEntities([e]));
    MentionsOfOne(text, pdfFile, pageNumber, e);
  }

  lemma MentionsOfOne(text: string, pdfFile: string, pageNumber: int, e: Entity)
    ensures Mentions(text, pdfFile, pageNumber, ProjectEntities([e]))
         == if e.entityGroup == Labels.ProjectLabel then [MentionOf(text, pdfFile, pageNumber, e)] else []
  {
    assert [e][1..] == [];
    assert ProjectEntities([e]) == if e.entityGroup == Labels.ProjectLabel then [e] else [];
    RecordsAt(x => MentionOf(text, pdfFile, pageNumber, x), ProjectEntities([e]));
  }

  /** `extract_project_mentions`: walks the predicted entities and appends a
      record for each one of the PROJECT group. */
  method ExtractProjectMentions(text: string, pdfFile: string, pageNumber: int, entities: seq<Entity>)
    returns (results: seq<MentionRecord>)
    ensures results == ProjectMentions(text, pdfFile, pageNumber, entities)
  {
    results := [];
    for n := 0 to |entities|
      invariant results == ProjectMentions(text, pdfFile, pageNumber, entities[..n])
    {
      var ent := entities[n];
      ProjectMentionsStep(text, pdfFile, pageNumber, entities, n);
      if ent.entityGroup == Labels.ProjectLabel {
        var context := GetContext(text, ent.start, ent.end, ContextWindow);
        var result := MentionRecord(pdfFile, pageNumber, ent.word, context, None);
        results := results + [result];
      }
    }
    assert entities[..|entities|] == entities;
  }
}
