/** The comma-separated tag string the forms edit, and the tag list the server
    stores (frontend/src/pages/InsertEntity.jsx, frontend/src/pages/EditEntity.jsx,
    frontend/src/components/TagInput.jsx). */
module TagString {
  import opened Strings

  /** A tag as parsing produces it: non-empty, trimmed, with no comma. */
  predicate GoodTag(t: string) {
    t != [] && Trimmed(t, IsJsSpace) && ',' !in t
  }

  predicate GoodTags(ts: seq<string>) {
    forall i :: 0 <= i < |ts| ==> GoodTag(ts[i])
  }

  /** Trim each piece and keep the non-empty ones, in order. */
  function ParsePieces(pieces: seq<string>): (r: seq<string>)
    requires forall i :: 0 <= i < |pieces| ==> ',' !in pieces[i]
    ensures GoodTags(r)
    ensures |r| <= |pieces|
  {
    if pieces == [] then []
    else
      var t := JsTrim(pieces[0]);
      HeadTag(pieces[0]);
      assert forall i :: 1 <= i < |pieces| ==> pieces[1..][i - 1] == pieces[i];
      var head := if t == "" then [] else [t];
      var rest := ParsePieces(pieces[1..]);
      GoodTagsAppend(head, rest);
      head + rest
  }

  /** The tag a comma-free piece contributes is good. */
  lemma HeadTag(x: string)
    requires ',' !in x
    ensures GoodTags(if JsTrim(x) == "" then [] else [JsTrim(x)])
  {
    TrimmedPiece(x);
  }

  lemma GoodTagsAppend(a: seq<string>, b: seq<string>)
    requires GoodTags(a) && GoodTags(b)
    ensures GoodTags(a + b)
  {
    forall i | 0 <= i < |a + b| ensures GoodTag((a + b)[i]) {
      if i >= |a| {
        assert (a + b)[i] == b[i - |a|];
      }
    }
  }

  /** A comma-free piece trims to a good tag, unless it is blank. */
  lemma TrimmedPiece(x: string)
    requires ',' !in x
    ensures JsTrim(x) != "" ==> GoodTag(JsTrim(x))
  {
  }

  /** The form's tag string as a list: split at every comma, trim each piece
      and drop the pieces that are blank. */
  function ParseTags(value: string): (r: seq<string>)
    ensures GoodTags(r)
  {
    ParsePieces(Split(value, ','))
  }

  /** The tag list as the form shows it: the tags joined by a comma and a space. */
  function JoinTags(ts: seq<string>): string {
    Join(ts, ", ")
  }

  /** Parsing a piece in front of more pieces. */
  lemma ParsePiecesCons(x: string, rest: seq<string>)
    requires ',' !in x
    requires forall i :: 0 <= i < |rest| ==> ',' !in rest[i]
    ensures ParsePieces([x] + rest) ==
      (if JsTrim(x) == "" then [] else [JsTrim(x)]) + ParsePieces(rest)
  {
    assert ([x] + rest)[0] == x;
    assert ([x] + rest)[1..] == rest;
  }

  /** A string without commas parses to its trimmed self, or to nothing when blank. */
  lemma ParseCommaFree(x: string)
    requires ',' !in x
    ensures ParseTags(x) == if JsTrim(x) == "" then [] else [JsTrim(x)]
  {
    SplitWithoutSep(x, ',');
    ParsePiecesCons(x, []);
  }

  /** A comma-free piece, a comma, then more text. */
  lemma ParseAtComma(x: string, rest: string)
    requires ',' !in x
    ensures ParseTags(x + [','] + rest) ==
      (if JsTrim(x) == "" then [] else [JsTrim(x)]) + ParseTags(rest)
  {
    SplitAtFirstSep(x, rest, ',');
    ParsePiecesCons(x, Split(rest, ','));
  }

  lemma SpaceIsSpace()
    ensures AllSpace(" ", IsJsSpace)
  {
    assert IsJsSpace(' ');
  }

  lemma GoodTagsTail(ts: seq<string>)
    requires |ts| >= 1 && GoodTags(ts)
    ensures GoodTags(ts[1..])
  {
    assert forall i :: 0 <= i < |ts| - 1 ==> ts[1..][i] == ts[i + 1];
  }

  /** Whitespace and one good tag, then a comma and more text. */
  lemma ParseSpacedTagThenComma(p: string, t: string, rest: string)
    requires AllSpace(p, IsJsSpace)
    requires GoodTag(t)
    ensures ParseTags(p + t + [','] + rest) == [t] + ParseTags(rest)
  {
    assert ',' !in p by {
      assert forall i :: 0 <= i < |p| ==> IsJsSpace(p[i]);
    }
    assert ',' !in p + t;
    TrimSpacePrefix(p, t, IsJsSpace);
    ParseAtComma(p + t, rest);
  }

  /** Whitespace and one good tag, with nothing after. */
  lemma ParseSpacedTag(p: string, t: string)
    requires AllSpace(p, IsJsSpace)
    requires GoodTag(t)
    ensures ParseTags(p + t) == [t]
  {
    assert ',' !in p by {
      assert forall i :: 0 <= i < |p| ==> IsJsSpace(p[i]);
    }
    assert ',' !in p + t;
    TrimSpacePrefix(p, t, IsJsSpace);
    ParseCommaFree(p + t);
  }

  /** Whitespace alone. */
  lemma ParseSpace(p: string)
    requires AllSpace(p, IsJsSpace)
    ensures ParseTags(p) == []
  {
    assert ',' !in p by {
      assert forall i :: 0 <= i < |p| ==> IsJsSpace(p[i]);
    }
    ParseCommaFree(p);
  }

  /** Parsing whitespace followed by a joined list of good tags gives the list back. */
  lemma {:induction false} ParseSpacedJoin(p: string, ts: seq<string>)
    requires AllSpace(p, IsJsSpace)
    requires GoodTags(ts)
    ensures ParseTags(p + JoinTags(ts)) == ts
    decreases |ts|
  {
    if |ts| <= 1 {
      ParseSpacedShort(p, ts);
    } else {
      SpaceIsSpace();
      GoodTagsTail(ts);
      ParseSpacedJoin(" ", ts[1..]);
      ParseSpacedJoinStep(p, ts);
    }
  }

  lemma ParseSpacedShort(p: string, ts: seq<string>)
    requires AllSpace(p, IsJsSpace)
    requires GoodTags(ts) && |ts| <= 1
    ensures ParseTags(p + JoinTags(ts)) == ts
  {
    if |ts| == 0 {
      assert p + JoinTags(ts) == p;
      ParseSpace(p);
    } else {
      assert p + JoinTags(ts) == p + ts[0];
      ParseSpacedTag(p, ts[0]);
    }
  }

  lemma ParseSpacedJoinStep(p: string, ts: seq<string>)
    requires AllSpace(p, IsJsSpace)
    requires GoodTags(ts) && |ts| >= 2
    requires ParseTags(" " + JoinTags(ts[1..])) == ts[1..]
    ensures ParseTags(p + JoinTags(ts)) == ts
  {
    var rest := " " + JoinTags(ts[1..]);
    JoinTagsCons(p, ts);
    assert p + JoinTags(ts) == p + ts[0] + [','] + rest;
    assert GoodTag(ts[0]);
    ParseSpacedTagThenComma(p, ts[0], rest);
    assert ParseTags(p + JoinTags(ts)) == [ts[0]] + ts[1..];
    assert ts == [ts[0]] + ts[1..];
  }

  lemma JoinTagsCons(p: string, ts: seq<string>)
    requires |ts| >= 2
    ensures p + JoinTags(ts) == p + ts[0] + [','] + (" " + JoinTags(ts[1..]))
  {
    assert JoinTags(ts) == ts[0] + ", " + JoinTags(ts[1..]);
    assert ", " == [','] + " ";
  }

  /** Round trip of the edit page: joining the stored tags with ", " on load and
      parsing on submit returns the same list, for tags that are non-empty,
      trimmed and comma-free. */
  lemma ParseJoin(ts: seq<string>)
    requires GoodTags(ts)
    ensures ParseTags(JoinTags(ts)) == ts
  {
    ParseSpacedJoin("", ts);
    assert "" + JoinTags(ts) == JoinTags(ts);
  }

  /** Parsing is idempotent through a join: a parsed list re-joined and re-parsed is unchanged. */
  lemma ParseJoinParse(value: string)
    ensures ParseTags(JoinTags(ParseTags(value))) == ParseTags(value)
  {
    ParseJoin(ParseTags(value));
  }

  lemma ExampleShape(a: string, b: string)
    ensures [] + a + [','] + ([' '] + [','] + (b + [','])) == a + [',', ' ', ','] + b + [',']
  {
    var l := [] + a + [','] + ([' '] + [','] + (b + [',']));
    var r := a + [',', ' ', ','] + b + [','];
    assert |l| == |r|;
    forall i | 0 <= i < |l| ensures l[i] == r[i] {
      if i < |a| {
      } else if i < |a| + 3 {
      } else {
      }
    }
  }

  /** A blank piece, then a good tag with a trailing comma. */
  lemma ParseBlankThenTag(b: string)
    requires GoodTag(b)
    ensures ParseTags([' '] + [','] + (b + [','])) == [b]
  {
    ParseTagComma(b);
    var space := [' '];
    assert ',' !in space;
    ParseAtComma(space, b + [',']);
    assert JsTrim(space) == [] by {
      SpaceIsSpace();
    }
  }

  /** A good tag with a trailing comma: the empty piece after the comma vanishes. */
  lemma ParseTagComma(b: string)
    requires GoodTag(b)
    ensures ParseTags(b + [',']) == [b]
  {
    var empty: string := [];
    assert empty + b + [','] + empty == b + [','];
    assert AllSpace(empty, IsJsSpace);
    ParseSpace(empty);
    ParseSpacedTagThenComma(empty, b, empty);
    assert ParseTags(b + [',']) == [b] + ParseTags(empty);
    assert [b] + [] == [b];
  }

  /** The shape of the create form's example `"a, ,b,"`, which parses to
      `["a", "b"]`: blank pieces and the empty piece after a trailing comma vanish. */
  lemma ParseDropsBlankPieces(a: string, b: string)
    requires GoodTag(a) && GoodTag(b)
    ensures ParseTags(a + [',', ' ', ','] + b + [',']) == [a, b]
  {
    var empty: string := [];
    assert AllSpace(empty, IsJsSpace);
    var y := [' '] + [','] + (b + [',']);
    ParseBlankThenTag(b);
    ParseSpacedTagThenComma(empty, a, y);
    ExampleShape(a, b);
    assert [a] + [b] == [a, b];
  }
}
