/** The highlight/footnote extraction that the comment side panel performs when
    it opens: find the first `==text== [^id]` in the note, then the first
    `[^id]:` definition, and report the highlighted text, the id and the
    footnote's comment (or that the footnote is missing). */
module CommentPanel {
  import opened Wrappers
  import opened JsText

  /** The capture groups of `/==([^=]+)==\s+\[\^([^\]]+)\]/` at one start
      index: `highlight` is group 1, `gap` the `\s+` run, `ref` group 2. */
  datatype HighlightMatch = HighlightMatch(highlight: string, gap: string, ref: string)

  /** What the panel derives from the note's text. */
  datatype Extraction =
    | NotFound
    | Found(highlighted: string, id: string, comment: string, footnoteMissing: bool)

  /** The text a match spans, given its three variable parts. */
  function PatternText(g1: string, ws: string, g2: string): (t: string)
  {
    "==" + g1 + "==" + ws + "[^" + g2 + "]"
  }

  /** The variable parts belong to `[^=]+`, `\s+` and `[^\]]+`. */
  predicate PartsFit(g1: string, ws: string, g2: string)
  {
    && |g1| > 0 && '=' !in g1
    && |ws| > 0 && AllSpace(ws)
    && |g2| > 0 && ']' !in g2
  }

  /** The highlight regex matches at index `i`, in some way. */
  ghost predicate PatternAt(s: string, i: nat)
  {
    exists g1, ws, g2 :: PartsFit(g1, ws, g2) && OccursAt(s, i, PatternText(g1, ws, g2))
  }

  /** The two characters `c1 c2` at index `i`. */
  predicate PairAt(s: string, i: nat, c1: char, c2: char)
  {
    i + 1 < |s| && s[i] == c1 && s[i + 1] == c2
  }

  /** The seven parts of a match, one after another from `i`. */
  predicate PartsAt(s: string, i: nat, g1: string, ws: string, g2: string)
  {
    var b := i + 2 + |g1|;
    var d := b + 2 + |ws|;
    var f := d + 2 + |g2|;
    && f < |s|
    && PairAt(s, i, '=', '=') && OccursAt(s, i + 2, g1) && PairAt(s, b, '=', '=')
    && OccursAt(s, b + 2, ws) && PairAt(s, d, '[', '^') && OccursAt(s, d + 2, g2) && s[f] == ']'
  }

  /** A two-character literal occurs where its two characters are. */
  lemma PairOccurs(s: string, i: nat, c1: char, c2: char)
    ensures OccursAt(s, i, [c1, c2]) <==> PairAt(s, i, c1, c2)
  {
    var t := [c1, c2];
    if OccursAt(s, i, t) {
      assert s[i + 0] == t[0] && s[i + 1] == t[1];
    }
  }

  /** A one-character literal occurs where its character is. */
  lemma CharOccurs(s: string, i: nat, c: char)
    ensures OccursAt(s, i, [c]) <==> i < |s| && s[i] == c
  {
    var t := [c];
    if OccursAt(s, i, t) {
      assert s[i + 0] == t[0];
    }
  }

  /** A match at `i` is its seven parts, one after another. */
  lemma PatternTextParts(s: string, i: nat, g1: string, ws: string, g2: string)
    ensures OccursAt(s, i, PatternText(g1, ws, g2)) <==> PartsAt(s, i, g1, ws, g2)
  {
    var p1 := i + 2;
    var b := p1 + |g1|;
    var p3 := b + 2;
    var d := p3 + |ws|;
    var p5 := d + 2;
    var f := p5 + |g2|;
    OccursConcat(s, i, f, "==" + g1 + "==" + ws + "[^" + g2, "]");
    OccursConcat(s, i, p5, "==" + g1 + "==" + ws + "[^", g2);
    OccursConcat(s, i, d, "==" + g1 + "==" + ws, "[^");
    OccursConcat(s, i, p3, "==" + g1 + "==", ws);
    OccursConcat(s, i, b, "==" + g1, "==");
    OccursConcat(s, i, p1, "==", g1);
    PairOccurs(s, i, '=', '=');
    PairOccurs(s, b, '=', '=');
    PairOccurs(s, d, '[', '^');
    CharOccurs(s, f, ']');
  }

  /** The highlight regex tried at index `i`. Every quantified part is followed
      by a literal outside its own class, so the greedy run is the only one
      that can succeed and no backtracking is needed. */
  function MatchAt(s: string, i: nat): (r: Option<HighlightMatch>)
  {
    if !PairAt(s, i, '=', '=') then None
    else
      var b := SkipWhile(s, i + 2, AnyBut('='));
      if b == i + 2 || !PairAt(s, b, '=', '=') then None
      else
        var d := SkipWhile(s, b + 2, Space);
        if d == b + 2 || !PairAt(s, d, '[', '^') then None
        else
          var f := SkipWhile(s, d + 2, AnyBut(']'));
          if f == d + 2 || f == |s| || s[f] != ']' then None
          else Some(HighlightMatch(s[i + 2..b], s[b + 2..d], s[d + 2..f]))
  }

  /** Whatever `MatchAt` reports is a match: its parts fit their classes and
      lie one after another from `i`. */
  lemma MatchAtSound(s: string, i: nat, m: HighlightMatch)
    requires MatchAt(s, i) == Some(m)
    ensures PartsFit(m.highlight, m.gap, m.ref)
    ensures PartsAt(s, i, m.highlight, m.gap, m.ref)
  {
    var b, d, f := MatchAtShape(s, i, m);
    SkipWhileRun(s, i + 2, AnyBut('='));
    SkipWhileRun(s, b + 2, Space);
    SkipWhileRun(s, d + 2, AnyBut(']'));
    RunsFormMatch(s, i, b, d, f);
  }

  /** A successful `MatchAt` found three non-empty runs ending at `b`, `d`
      and `f`, each followed by the literal after it. */
  lemma {:induction false} MatchAtShape(s: string, i: nat, m: HighlightMatch) returns (b: nat, d: nat, f: nat)
    requires MatchAt(s, i) == Some(m)
    ensures i + 2 < b && b + 2 < d && d + 2 < f < |s|
    ensures PairAt(s, i, '=', '=') && PairAt(s, b, '=', '=') && PairAt(s, d, '[', '^') && s[f] == ']'
    ensures SkipWhile(s, i + 2, AnyBut('=')) == b
    ensures SkipWhile(s, b + 2, Space) == d
    ensures SkipWhile(s, d + 2, AnyBut(']')) == f
    ensures m == HighlightMatch(s[i + 2..b], s[b + 2..d], s[d + 2..f])
  {
    b := SkipWhile(s, i + 2, AnyBut('='));
    d := SkipWhile(s, b + 2, Space);
    f := SkipWhile(s, d + 2, AnyBut(']'));
  }

  /** The greedy runs `MatchAt` found do form a match. */
  lemma RunsFormMatch(s: string, i: nat, b: nat, d: nat, f: nat)
    requires i + 2 < b && b + 2 < d && d + 2 < f < |s|
    requires PairAt(s, i, '=', '=') && PairAt(s, b, '=', '=') && PairAt(s, d, '[', '^') && s[f] == ']'
    requires RunOf(s, i + 2, b, AnyBut('=')) && RunOf(s, b + 2, d, Space) && RunOf(s, d + 2, f, AnyBut(']'))
    ensures PartsFit(s[i + 2..b], s[b + 2..d], s[d + 2..f])
    ensures PartsAt(s, i, s[i + 2..b], s[b + 2..d], s[d + 2..f])
  {
    var g1, ws, g2 := s[i + 2..b], s[b + 2..d], s[d + 2..f];
    RunMembers(s, i + 2, b, AnyBut('='));
    RunMembers(s, b + 2, d, Space);
    RunMembers(s, d + 2, f, AnyBut(']'));
    assert forall c :: c in g1 ==> InClass(AnyBut('='), c);
    forall c | c in ws
      ensures IsSpace(c)
    {
      assert InClass(Space, c);
    }
    assert forall c :: c in g2 ==> InClass(AnyBut(']'), c);
    SliceOccurs(s, i + 2, b);
    SliceOccurs(s, b + 2, d);
    SliceOccurs(s, d + 2, f);
  }

  /** Any way the regex can match at `i` is the one `MatchAt` reports. */
  lemma MatchAtComplete(s: string, i: nat, g1: string, ws: string, g2: string)
    requires PartsFit(g1, ws, g2)
    requires OccursAt(s, i, PatternText(g1, ws, g2))
    ensures MatchAt(s, i) == Some(HighlightMatch(g1, ws, g2))
  {
    PatternTextParts(s, i, g1, ws, g2);
    MatchAtCompleteParts(s, i, g1, ws, g2);
  }

  lemma MatchAtCompleteParts(s: string, i: nat, g1: string, ws: string, g2: string)
    requires PartsFit(g1, ws, g2)
    requires PartsAt(s, i, g1, ws, g2)
    ensures MatchAt(s, i) == Some(HighlightMatch(g1, ws, g2))
  {
    var b := i + 2 + |g1|;
    var d := b + 2 + |ws|;
    var f := d + 2 + |g2|;
    PartsRuns(s, i, g1, ws, g2);
    RunsSkip(s, i, b, d, f);
    MatchAtSteps(s, i, b, d, f);
  }

  /** The parts of a match are runs of their classes, each ended by the
      literal after it. */
  lemma PartsRuns(s: string, i: nat, g1: string, ws: string, g2: string)
    requires PartsFit(g1, ws, g2)
    requires PartsAt(s, i, g1, ws, g2)
    ensures var b := i + 2 + |g1|; var d := b + 2 + |ws|; var f := d + 2 + |g2|;
      && i + 2 < b && b + 2 < d && d + 2 < f < |s|
      && PairAt(s, i, '=', '=') && PairAt(s, b, '=', '=') && PairAt(s, d, '[', '^') && s[f] == ']'
      && RunOf(s, i + 2, b, AnyBut('=')) && RunOf(s, b + 2, d, Space) && RunOf(s, d + 2, f, AnyBut(']'))
      && s[i + 2..b] == g1 && s[b + 2..d] == ws && s[d + 2..f] == g2
  {
    var b := i + 2 + |g1|;
    var d := b + 2 + |ws|;
    assert forall c :: c in g1 ==> InClass(AnyBut('='), c);
    assert forall c :: c in ws ==> InClass(Space, c);
    assert forall c :: c in g2 ==> InClass(AnyBut(']'), c);
    OccursRun(s, i + 2, g1, AnyBut('='));
    OccursRun(s, b + 2, ws, Space);
    OccursRun(s, d + 2, g2, AnyBut(']'));
    OccursSlice(s, i + 2, g1);
    OccursSlice(s, b + 2, ws);
    OccursSlice(s, d + 2, g2);
  }

  /** Runs of the three classes, each ended by the literal after it, are the
      greedy runs. */
  lemma RunsSkip(s: string, i: nat, b: nat, d: nat, f: nat)
    requires i + 2 < b && b + 2 < d && d + 2 < f < |s|
    requires PairAt(s, b, '=', '=') && PairAt(s, d, '[', '^') && s[f] == ']'
    requires RunOf(s, i + 2, b, AnyBut('=')) && RunOf(s, b + 2, d, Space) && RunOf(s, d + 2, f, AnyBut(']'))
    ensures SkipWhile(s, i + 2, AnyBut('=')) == b
    ensures SkipWhile(s, b + 2, Space) == d
    ensures SkipWhile(s, d + 2, AnyBut(']')) == f
  {
    SkipWhileUnique(s, i + 2, b, AnyBut('='));
    SkipWhileUnique(s, b + 2, d, Space);
    SkipWhileUnique(s, d + 2, f, AnyBut(']'));
  }

  /** `MatchAt` in terms of the ends of its three runs. */
  lemma {:induction false} MatchAtSteps(s: string, i: nat, b: nat, d: nat, f: nat)
    requires PairAt(s, i, '=', '=')
    requires SkipWhile(s, i + 2, AnyBut('=')) == b && i + 2 < b && PairAt(s, b, '=', '=')
    requires SkipWhile(s, b + 2, Space) == d && b + 2 < d && PairAt(s, d, '[', '^')
    requires SkipWhile(s, d + 2, AnyBut(']')) == f && d + 2 < f < |s| && s[f] == ']'
    ensures MatchAt(s, i) == Some(HighlightMatch(s[i + 2..b], s[b + 2..d], s[d + 2..f]))
  {
  }

  /** `MatchAt` succeeds exactly where the regex can match. */
  lemma MatchAtIff(s: string, i: nat)
    ensures MatchAt(s, i).Some? <==> PatternAt(s, i)
  {
    if MatchAt(s, i).Some? {
      var m := MatchAt(s, i).value;
      MatchAtSound(s, i, m);
      PatternTextParts(s, i, m.highlight, m.gap, m.ref);
    }
    if PatternAt(s, i) {
      var g1, ws, g2 :| PartsFit(g1, ws, g2) && OccursAt(s, i, PatternText(g1, ws, g2));
      MatchAtComplete(s, i, g1, ws, g2);
    }
  }

  /** `String.prototype.match` with a non-global regex: the match at the
      smallest start index at or after `from`. */
  function FirstMatchFrom(s: string, from: nat): (r: Option<(nat, HighlightMatch)>)
    ensures r.Some? ==> from <= r.value.0 && MatchAt(s, r.value.0) == Some(r.value.1)
    ensures r.Some? ==> forall j :: from <= j < r.value.0 ==> MatchAt(s, j).None?
    ensures r.None? ==> forall j :: from <= j ==> MatchAt(s, j).None?
    decreases |s| - from
  {
    if from >= |s| then None
    else
      match MatchAt(s, from)
      case Some(m) => Some((from, m))
      case None => FirstMatchFrom(s, from + 1)
  }

  /** The search stops at the first index where `MatchAt` succeeds. */
  lemma FirstMatchAt(s: string, from: nat, i: nat)
    requires from <= i && MatchAt(s, i).Some?
    requires forall j :: from <= j < i ==> MatchAt(s, j).None?
    ensures FirstMatchFrom(s, from) == Some((i, MatchAt(s, i).value))
    decreases i - from
  {
    if from < i {
      FirstMatchAt(s, from + 1, i);
    }
  }

  /** The literal that opens a footnote definition for `id`. */
  function Marker(id: string): (t: string)
  {
    "[^" + id + "]:"
  }

  /** From index `q`: the white space `ws` that the greedy `\s*` takes (it may
      cross lines), then the text `body` that `(.*)` takes up to the next line
      terminator or the end. */
  ghost predicate RestIs(s: string, q: nat, ws: string, body: string)
  {
    var p := q + |ws|;
    var e := p + |body|;
    && OccursAt(s, q, ws) && AllSpace(ws) && (p == |s| || !IsSpace(s[p]))
    && OccursAt(s, p, body) && NoLineTerminator(body) && (e == |s| || IsLineTerminator(s[e]))
  }

  /** A footnote definition for `id` starts at `k`, with the given parts. */
  ghost predicate DefinitionAt(s: string, k: nat, id: string, ws: string, body: string)
  {
    OccursAt(s, k, Marker(id)) && RestIs(s, k + |Marker(id)|, ws, body)
  }

  /** `\s*(.*)` from index `q`: group 1, the text after the white space and
      before the next line terminator. */
  function DefinitionText(s: string, q: nat): (body: string)
    requires q <= |s|
    ensures NoLineTerminator(body)
    ensures body == [] || !IsSpace(body[0])
  {
    var p := SkipWhile(s, q, Space);
    var e := SkipWhile(s, p, Dot);
    SkipWhileRun(s, q, Space);
    SkipWhileRun(s, p, Dot);
    RunMembers(s, p, e, Dot);
    s[p..e]
  }

  /** The parts `RestIs` describes are the ones `DefinitionText` takes. */
  lemma DefinitionTextExact(s: string, q: nat, ws: string, body: string)
    requires RestIs(s, q, ws, body)
    ensures DefinitionText(s, q) == body
  {
    var p := q + |ws|;
    var e := p + |body|;
    assert forall c :: c in ws ==> InClass(Space, c);
    assert forall c :: c in body ==> InClass(Dot, c);
    OccursRun(s, q, ws, Space);
    OccursRun(s, p, body, Dot);
    OccursSlice(s, p, body);
    SkipWhileUnique(s, q, p, Space);
    SkipWhileUnique(s, p, e, Dot);
  }

  /** `DefinitionText` always has the shape `RestIs` describes. */
  lemma DefinitionTextShape(s: string, q: nat)
    requires q <= |s|
    ensures RestIs(s, q, s[q..SkipWhile(s, q, Space)], DefinitionText(s, q))
  {
    var p := SkipWhile(s, q, Space);
    var e := SkipWhile(s, p, Dot);
    SkipWhileRun(s, q, Space);
    SkipWhileRun(s, p, Dot);
    RunMembers(s, q, p, Space);
    RunMembers(s, p, e, Dot);
    SliceOccurs(s, q, p);
    SliceOccurs(s, p, e);
  }

  /** The trimmed definition text from index `q`: the comment the panel shows. */
  function CommentAt(s: string, q: nat): (c: string)
    requires q <= |s|
    ensures IsTrimmed(c) && NoLineTerminator(c)
  {
    Trim(DefinitionText(s, q))
  }

  /** The definition text after the first occurrence of the literal `t`. */
  function DefinitionAfter(s: string, t: string): (r: Option<string>)
    ensures r.None? <==> forall k :: !OccursAt(s, k, t)
    ensures r.Some? ==> IsTrimmed(r.value) && NoLineTerminator(r.value)
  {
    SearchEndLeast(s, t, 0);
    match SearchEnd(s, t, 0)
    case None => None
    case Some(q) => Some(CommentAt(s, q))
  }

  /** The footnote lookup `content.match(new RegExp("\\[\\^" + id + "\\]:\\s*(.*)"))`
      followed by `trim()` of group 1, with `id` taken as literal text:
      None when no definition marker occurs. */
  function FindDef(s: string, id: string): (r: Option<string>)
    ensures r.None? <==> forall k :: !OccursAt(s, k, Marker(id))
    ensures r.Some? ==> IsTrimmed(r.value) && NoLineTerminator(r.value)
  {
    DefinitionAfter(s, Marker(id))
  }

  /** The text after the FIRST occurrence of `t` decides. */
  lemma DefinitionAfterFirst(s: string, t: string, k: nat, ws: string, body: string)
    requires OccursAt(s, k, t) && RestIs(s, k + |t|, ws, body)
    requires forall j :: 0 <= j < k ==> !OccursAt(s, j, t)
    ensures DefinitionAfter(s, t) == Some(Trim(body))
  {
    var q := k + |t|;
    SearchEndFirst(s, t, k);
    DefinitionAfterAt(s, t, q);
    DefinitionTextExact(s, q, ws, body);
  }

  lemma {:induction false} DefinitionAfterAt(s: string, t: string, q: nat)
    requires SearchEnd(s, t, 0) == Some(q)
    ensures DefinitionAfter(s, t) == Some(CommentAt(s, q))
  {
  }

  /** The comment comes from the FIRST definition marker: the trimmed rest of
      the text after the marker and the white space that follows it. */
  lemma FindDefFirst(s: string, id: string, k: nat, ws: string, body: string)
    requires DefinitionAt(s, k, id, ws, body)
    requires forall j :: 0 <= j < k ==> !OccursAt(s, j, Marker(id))
    ensures FindDef(s, id) == Some(Trim(body))
  {
    DefinitionAfterFirst(s, Marker(id), k, ws, body);
  }

  /** The side panel's extraction (the body of `CommentPanel.onOpen` between
      reading the file and building the view). */
  function Extract(content: string): (r: Extraction)
    ensures r.Found? ==> '=' !in r.highlighted && ']' !in r.id
    ensures r.Found? ==> IsTrimmed(r.highlighted) && IsTrimmed(r.id)
    ensures r.Found? ==> IsTrimmed(r.comment) && NoLineTerminator(r.comment)
    ensures r.Found? ==> (r.footnoteMissing <==> FindDef(content, r.id).None?)
    ensures r.Found? ==> r.comment == FindDef(content, r.id).GetOr("")
  {
    match FirstMatchFrom(content, 0)
    case None => NotFound
    case Some((k, m)) =>
      MatchAtSound(content, k, m);
      Report(content, m)
  }

  /** What the panel shows for the match `m`: its trimmed groups and the
      footnote looked up by the trimmed id. */
  function Report(content: string, m: HighlightMatch): (r: Extraction)
  {
    var id := Trim(m.ref);
    match FindDef(content, id)
    case Some(comment) => Found(Trim(m.highlight), id, comment, false)
    case None => Found(Trim(m.highlight), id, "", true)
  }

  /** The footnote is reported missing exactly when no `[^id]:` marker for the
      (trimmed) id occurs, and then the comment is empty. */
  lemma ExtractFootnoteMissing(content: string)
    requires Extract(content).Found?
    ensures Extract(content).footnoteMissing <==> forall k :: !OccursAt(content, k, Marker(Extract(content).id))
    ensures Extract(content).footnoteMissing ==> Extract(content).comment == ""
  {
    var r := Extract(content);
    var d := FindDef(content, r.id);
    assert r.footnoteMissing <==> d.None?;
  }

  /** Not found exactly when the highlight regex matches nowhere in the note. */
  lemma ExtractNotFoundIff(content: string)
    ensures Extract(content).NotFound? <==> forall i: nat :: !PatternAt(content, i)
  {
    var first := FirstMatchFrom(content, 0);
    if first.None? {
      forall i: nat
        ensures !PatternAt(content, i)
      {
        MatchAtIff(content, i);
      }
    } else {
      MatchAtIff(content, first.value.0);
    }
  }

  /** The leftmost match decides the result, whatever follows it: the
      highlighted text and id are its trimmed groups, and the comment is the
      footnote found for that id. */
  lemma ExtractLeftmost(content: string, i: nat, g1: string, ws: string, g2: string)
    requires PartsFit(g1, ws, g2)
    requires OccursAt(content, i, PatternText(g1, ws, g2))
    requires forall j: nat :: j < i ==> !PatternAt(content, j)
    ensures Extract(content) ==
      Found(Trim(g1), Trim(g2), FindDef(content, Trim(g2)).GetOr(""), FindDef(content, Trim(g2)).None?)
  {
    ExtractLeftmostReport(content, i, g1, ws, g2);
    ReportFields(content, HighlightMatch(g1, ws, g2));
  }

  /** The leftmost match is the one the panel reports. */
  lemma ExtractLeftmostReport(content: string, i: nat, g1: string, ws: string, g2: string)
    requires PartsFit(g1, ws, g2)
    requires OccursAt(content, i, PatternText(g1, ws, g2))
    requires forall j: nat :: j < i ==> !PatternAt(content, j)
    ensures Extract(content) == Report(content, HighlightMatch(g1, ws, g2))
  {
    LeftmostMatch(content, i, g1, ws, g2);
    ExtractFirst(content, i, HighlightMatch(g1, ws, g2));
  }

  /** A note that opens with a highlight whose footnote is defined. */
  lemma ExtractAtStart(content: string, g1: string, ws: string, g2: string, body: string)
    requires PartsFit(g1, ws, g2) && IsTrimmed(g1) && IsTrimmed(g2)
    requires OccursAt(content, 0, PatternText(g1, ws, g2))
    requires FindDef(content, g2) == Some(body)
    ensures Extract(content) == Found(g1, g2, body, false)
  {
    ExtractLeftmostTrimmed(content, 0, g1, ws, g2);
  }

  /** `ExtractLeftmost` for groups that carry no white space at their ends. */
  lemma ExtractLeftmostTrimmed(content: string, i: nat, g1: string, ws: string, g2: string)
    requires PartsFit(g1, ws, g2) && IsTrimmed(g1) && IsTrimmed(g2)
    requires OccursAt(content, i, PatternText(g1, ws, g2))
    requires forall j: nat :: j < i ==> !PatternAt(content, j)
    ensures Extract(content) == Found(g1, g2, FindDef(content, g2).GetOr(""), FindDef(content, g2).None?)
  {
    ExtractLeftmostReport(content, i, g1, ws, g2);
    ReportTrimmed(content, HighlightMatch(g1, ws, g2));
  }

  /** With trimmed groups, the panel shows the groups themselves. */
  lemma ReportTrimmed(content: string, m: HighlightMatch)
    requires IsTrimmed(m.highlight) && IsTrimmed(m.ref)
    ensures Report(content, m) == Found(m.highlight, m.ref, FindDef(content, m.ref).GetOr(""), FindDef(content, m.ref).None?)
  {
    TrimTrimmed(m.highlight);
    TrimTrimmed(m.ref);
    ReportFields(content, m);
  }

  /** `FindDefFirst` for a definition text that carries no white space at its end. */
  lemma FindDefFirstTrimmed(s: string, id: string, k: nat, ws: string, body: string)
    requires DefinitionAt(s, k, id, ws, body) && IsTrimmed(body)
    requires forall j :: 0 <= j < k ==> !OccursAt(s, j, Marker(id))
    ensures FindDef(s, id) == Some(body)
  {
    FindDefFirst(s, id, k, ws, body);
    TrimTrimmed(body);
  }

  /** The search of `match` stops at the leftmost match. */
  lemma LeftmostMatch(s: string, i: nat, g1: string, ws: string, g2: string)
    requires PartsFit(g1, ws, g2)
    requires OccursAt(s, i, PatternText(g1, ws, g2))
    requires forall j: nat :: j < i ==> !PatternAt(s, j)
    ensures FirstMatchFrom(s, 0) == Some((i, HighlightMatch(g1, ws, g2)))
  {
    MatchAtComplete(s, i, g1, ws, g2);
    forall j | 0 <= j < i
      ensures MatchAt(s, j).None?
    {
      MatchAtIff(s, j);
    }
    FirstMatchAt(s, 0, i);
  }

  lemma {:induction false} ExtractFirst(content: string, k: nat, m: HighlightMatch)
    requires FirstMatchFrom(content, 0) == Some((k, m))
    ensures Extract(content) == Report(content, m)
  {
  }

  lemma ReportFields(content: string, m: HighlightMatch)
    ensures Report(content, m) ==
      Found(Trim(m.highlight), Trim(m.ref), FindDef(content, Trim(m.ref)).GetOr(""), FindDef(content, Trim(m.ref)).None?)
  {
  }

  /** Every match holds a white-space character: the one `\s+` starts with. */
  lemma PatternSpace(s: string, i: nat) returns (p: nat)
    requires PatternAt(s, i)
    ensures p < |s| && IsSpace(s[p])
  {
    var g1, ws, g2 :| PartsFit(g1, ws, g2) && OccursAt(s, i, PatternText(g1, ws, g2));
    PatternTextParts(s, i, g1, ws, g2);
    p := i + 2 + |g1| + 2;
    assert s[p + 0] == ws[0];
    assert ws[0] in ws;
  }

  /** `\s+` needs at least one white-space character: a note without any
      (such as `==hi==[^a]`) has no highlight. */
  lemma NoSpaceNotFound(content: string)
    ensures (forall c :: c in content ==> !IsSpace(c)) ==> Extract(content).NotFound?
  {
    if Extract(content).Found? {
      ExtractNotFoundIff(content);
      var i: nat :| PatternAt(content, i);
      var p := PatternSpace(content, i);
      assert content[p] in content;
    }
  }
}
