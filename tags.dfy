/**
 * Tag-list normalisation applied to an LM Studio reply in Tags mode
 * (services/geminiService.ts:166-170): split on ',', trim every piece, drop
 * the empty ones, keep the first occurrence of each tag (a JavaScript Set
 * keeps insertion order) and join the survivors with ", ".
 */
module Tags {
  import opened JsText

  /** `pieces.map(tag => tag.trim())`. */
  function MapTrim(pieces: seq<string>): (r: seq<string>)
    ensures |r| == |pieces|
    ensures forall k :: 0 <= k < |r| ==> r[k] == Trim(pieces[k])
  {
    if pieces == [] then [] else [Trim(pieces[0])] + MapTrim(pieces[1..])
  }

  /** `.filter(tag => tag)`: an empty string is falsy, every other string is kept, in order. */
  function DropEmpty(pieces: seq<string>): (r: seq<string>)
    ensures |r| <= |pieces|
    ensures forall t :: t in r <==> t in pieces && t != ""
  {
    if pieces == [] then []
    else if pieces[0] == "" then DropEmpty(pieces[1..])
    else [pieces[0]] + DropEmpty(pieces[1..])
  }

  predicate Distinct(xs: seq<string>) {
    forall i, j :: 0 <= i < j < |xs| ==> xs[i] != xs[j]
  }

  /** The position where `x` first occurs in `xs`. */
  function FirstIndex(xs: seq<string>, x: string): (i: nat)
    requires x in xs
    ensures i < |xs| && xs[i] == x && x !in xs[..i]
  {
    if xs[0] == x then 0
    else
      var i := 1 + FirstIndex(xs[1..], x);
      assert xs[..i] == [xs[0]] + xs[1..][..i - 1];
      i
  }

  /**
   * `[...new Set(xs)]`: each element once, at the place where it first
   * occurs. Written element by element, the way the Set is filled.
   */
  function Unique(xs: seq<string>): (r: seq<string>)
    ensures Distinct(r)
    ensures forall x :: x in r <==> x in xs
  {
    if xs == [] then []
    else
      var d := Unique(xs[..|xs| - 1]);
      var x := xs[|xs| - 1];
      assert xs == xs[..|xs| - 1] + [x];
      if x in d then d else d + [x]
  }

  /** The trimmed pieces of a reply, before empties and repeats are removed. */
  function Pieces(reply: string): (r: seq<string>)
    ensures |r| >= 1
  {
    MapTrim(Split(reply, ','))
  }

  /** The tags kept from a reply, in the order they are joined. */
  function TagList(reply: string): seq<string> {
    Unique(DropEmpty(Pieces(reply)))
  }

  /** The normalised annotation: the kept tags joined with ", ". */
  function NormalizeTags(reply: string): string {
    Join(TagList(reply), ", ")
  }

  lemma FirstIndexInPrefix(p: seq<string>, x: string, y: string)
    requires y in p
    ensures FirstIndex(p + [x], y) == FirstIndex(p, y)
  {
    var q := p + [x];
    var i := FirstIndex(q, y);
    var i0 := FirstIndex(p, y);
    assert forall k :: 0 <= k < i ==> q[k] != y by {
      assert forall k :: 0 <= k < i ==> q[k] == q[..i][k];
    }
    assert forall k :: 0 <= k < i0 ==> p[k] != y by {
      assert forall k :: 0 <= k < i0 ==> p[k] == p[..i0][k];
    }
    assert q[i0] == y;
  }

  /** Unique lists the elements in the order of their first occurrence. */
  lemma {:induction false} UniqueOrder(xs: seq<string>)
    ensures forall i, j :: 0 <= i < j < |Unique(xs)| ==>
              FirstIndex(xs, Unique(xs)[i]) < FirstIndex(xs, Unique(xs)[j])
  {
    if xs != [] {
      var p := xs[..|xs| - 1];
      var x := xs[|xs| - 1];
      var d := Unique(p);
      UniqueOrder(p);
      assert xs == p + [x];
      forall y | y in p
        ensures FirstIndex(xs, y) == FirstIndex(p, y)
      {
        FirstIndexInPrefix(p, x, y);
      }
      if x !in d {
        assert x !in p;
        assert FirstIndex(xs, x) == |p| by {
          assert xs[|p|] == x;
        }
      }
    }
  }

  /** A list that is already free of repeats comes back unchanged. */
  lemma {:induction false} UniqueOfDistinct(xs: seq<string>)
    requires Distinct(xs)
    ensures Unique(xs) == xs
  {
    if xs != [] {
      var p := xs[..|xs| - 1];
      var x := xs[|xs| - 1];
      UniqueOfDistinct(p);
      forall k | 0 <= k < |p|
        ensures p[k] != x
      {
        assert xs[k] != xs[|xs| - 1];
      }
      assert xs == p + [x];
    }
  }

  /** Dropping empties keeps the relative order of the pieces that stay. */
  lemma {:induction false} DropEmptyOrder(xs: seq<string>, x: string, y: string)
    requires x in DropEmpty(xs) && y in DropEmpty(xs)
    requires FirstIndex(DropEmpty(xs), x) < FirstIndex(DropEmpty(xs), y)
    ensures FirstIndex(xs, x) < FirstIndex(xs, y)
  {
    var d := DropEmpty(xs[1..]);
    if xs[0] == "" {
      DropEmptyOrder(xs[1..], x, y);
    } else if xs[0] == x {
    } else {
      assert DropEmpty(xs) == [xs[0]] + d;
      assert xs[0] != y;
      assert FirstIndex(DropEmpty(xs), x) == 1 + FirstIndex(d, x);
      assert FirstIndex(DropEmpty(xs), y) == 1 + FirstIndex(d, y);
      DropEmptyOrder(xs[1..], x, y);
    }
  }

  lemma {:induction false} DropEmptyOfNonEmpty(xs: seq<string>)
    requires forall k :: 0 <= k < |xs| ==> xs[k] != ""
    ensures DropEmpty(xs) == xs
  {
    if xs != [] {
      DropEmptyOfNonEmpty(xs[1..]);
    }
  }

  /**
   * What the normalised list holds: distinct, non-empty, trimmed tags without
   * commas; exactly the non-empty trimmed pieces of the reply; ordered by
   * where each first occurs among those pieces.
   */
  lemma TagListProperties(reply: string)
    ensures Distinct(TagList(reply))
    ensures forall k :: 0 <= k < |TagList(reply)| ==>
              TagList(reply)[k] != "" && IsTrimmed(TagList(reply)[k]) && ',' !in TagList(reply)[k]
    ensures forall t :: t in TagList(reply) <==> t in Pieces(reply) && t != ""
    ensures forall i, j :: 0 <= i < j < |TagList(reply)| ==>
              FirstIndex(Pieces(reply), TagList(reply)[i]) < FirstIndex(Pieces(reply), TagList(reply)[j])
  {
    var pieces := Pieces(reply);
    var kept := DropEmpty(pieces);
    var tags := TagList(reply);
    forall k | 0 <= k < |tags|
      ensures tags[k] != "" && IsTrimmed(tags[k]) && ',' !in tags[k]
    {
      assert tags[k] in pieces;
      var m :| 0 <= m < |pieces| && pieces[m] == tags[k];
      TrimChars(Split(reply, ',')[m], ',');
    }
    UniqueOrder(kept);
    forall i, j | 0 <= i < j < |tags|
      ensures FirstIndex(pieces, tags[i]) < FirstIndex(pieces, tags[j])
    {
      DropEmptyOrder(pieces, tags[i], tags[j]);
    }
  }

  lemma MapTrimCons(a: string, xs: seq<string>)
    ensures MapTrim([a] + xs) == [Trim(a)] + MapTrim(xs)
  {
  }

  /** A space at the front of the first piece is trimmed away. */
  lemma MapTrimLeadingSpace(p: string, ps: seq<string>)
    ensures MapTrim([[' '] + p] + ps) == MapTrim([p] + ps)
  {
    MapTrimCons([' '] + p, ps);
    MapTrimCons(p, ps);
    TrimLeadingSpace(p);
  }

  /** A space after a comma is trimmed away, so it leaves the pieces unchanged. */
  lemma PiecesAfterSpace(rest: string)
    ensures MapTrim(Split([' '] + rest, ',')) == MapTrim(Split(rest, ','))
  {
    var s := Split(rest, ',');
    SplitCons(' ', rest, ',');
    MapTrimLeadingSpace(s[0], s[1..]);
    assert s == [s[0]] + s[1..];
  }

  /** The first tag of a ", "-joined text is its first piece. */
  lemma PiecesCons(a: string, rest: string)
    requires ',' !in a
    ensures Pieces(a + ", " + rest) == [Trim(a)] + Pieces(rest)
  {
    assert a + ", " + rest == a + [','] + ([' '] + rest);
    SplitAfterPrefix(a, ',', [' '] + rest);
    PiecesAfterSpace(rest);
    MapTrimCons(a, Split([' '] + rest, ','));
  }

  lemma PiecesOfJoinStep(t: string, ts: seq<string>)
    requires IsTrimmed(t) && ',' !in t
    requires |ts| >= 1 && Pieces(Join(ts, ", ")) == ts
    ensures Pieces(Join([t] + ts, ", ")) == [t] + ts
  {
    JoinCons(t, ts, ", ");
    PiecesCons(t, Join(ts, ", "));
    TrimOfTrimmed(t);
  }

  /** Trimmed, comma-free tags joined with ", " split back into themselves. */
  lemma {:induction false} PiecesOfJoin(tags: seq<string>)
    requires |tags| >= 1
    requires forall k :: 0 <= k < |tags| ==> IsTrimmed(tags[k]) && ',' !in tags[k]
    ensures Pieces(Join(tags, ", ")) == tags
  {
    if |tags| == 1 {
      SplitNoSeparator(tags[0], ',');
      TrimOfTrimmed(tags[0]);
    } else {
      var t, ts := tags[0], tags[1..];
      assert tags == [t] + ts;
      assert IsTrimmed(t) && ',' !in t;
      PiecesOfJoin(ts);
      PiecesOfJoinStep(t, ts);
    }
  }

  /** Normalising an already normalised annotation leaves it unchanged. */
  lemma NormalizeIdempotent(reply: string)
    ensures NormalizeTags(NormalizeTags(reply)) == NormalizeTags(reply)
  {
    var tags := TagList(reply);
    TagListProperties(reply);
    if tags == [] {
      assert Split("", ',') == [""];
      assert Pieces("") == [""];
    } else {
      PiecesOfJoin(tags);
      DropEmptyOfNonEmpty(tags);
      UniqueOfDistinct(tags);
    }
  }

  /** A tag padded with one space on each side trims back to itself. */
  lemma TrimPadded(t: string)
    requires t != [] && IsTrimmed(t)
    ensures Trim([' '] + t + [' ']) == t
  {
    var u := [' '] + t + [' '];
    assert LeadingSpace(u) == 1 by {
      assert u[1..][0] == t[0];
    }
    var v := u[1..];
    assert v == t + [' '];
    assert TrailingSpace(v) == 1 by {
      assert v[..|v| - 1] == t;
    }
    assert v[..|v| - 1] == t;
  }

  lemma LeadingSpaceNoComma(t: string)
    requires ',' !in t
    ensures ',' !in [' '] + t
  {
    var p := [' '] + t;
    forall k | 1 <= k < |p|
      ensures p[k] != ','
    {
      assert p[k] == t[k - 1];
    }
  }

  lemma PaddedNoComma(t: string)
    requires ',' !in t
    ensures ',' !in [' '] + t + [' ']
  {
    LeadingSpaceNoComma(t);
    var p := [' '] + t + [' '];
    forall k | 0 <= k < |p| - 1
      ensures p[k] != ','
    {
      assert p[k] == ([' '] + t)[k];
    }
  }

  lemma Cons4<T>(w: T, x: T, y: T, z: T)
    ensures [w] + ([x] + ([y] + [z])) == [w, x, y, z]
  {
  }

  /**
   * The split of the repeated-tag text, written without string literals:
   * the first tag, the padded tag, the tag with a leading space, the last tag.
   */
  lemma RepeatedTagSplit(a: string, b: string)
    requires ',' !in a && ',' !in b
    ensures Split(a + [','] + ([' '] + a + [' '] + [','] + ([' '] + b + [','] + a)), ',')
            == [a] + ([[' '] + a + [' ']] + ([[' '] + b] + [a]))
  {
    var x, y := [' '] + a + [' '], [' '] + b;
    PaddedNoComma(a);
    LeadingSpaceNoComma(b);
    SplitNoSeparator(a, ',');
    SplitAfterPrefix(y, ',', a);
    SplitAfterPrefix(x, ',', y + [','] + a);
    SplitAfterPrefix(a, ',', x + [','] + (y + [','] + a));
  }

  /** Trimming a list piece by piece, once the first piece's trim is known. */
  lemma MapTrimStep(p: string, t: string, ps: seq<string>, ts: seq<string>)
    requires Trim(p) == t && MapTrim(ps) == ts
    ensures MapTrim([p] + ps) == [t] + ts
  {
    MapTrimCons(p, ps);
  }

  lemma MapTrimOne(p: string)
    requires IsTrimmed(p)
    ensures MapTrim([p]) == [p]
  {
    TrimOfTrimmed(p);
  }

  lemma RepeatedTagPieces(a: string, b: string)
    requires a != [] && IsTrimmed(a) && ',' !in a
    requires b != [] && IsTrimmed(b) && ',' !in b
    ensures Pieces(a + ", " + a + " , " + b + "," + a) == [a, a, b, a]
  {
    RepeatedTagText(a, b);
    RepeatedTagSplit(a, b);
    MapTrimOne(a);
    TrimLeadingSpace(b);
    TrimOfTrimmed(b);
    MapTrimStep([' '] + b, b, [a], [a]);
    TrimPadded(a);
    MapTrimStep([' '] + a + [' '], a, [[' '] + b] + [a], [b] + [a]);
    TrimOfTrimmed(a);
    MapTrimStep(a, a, [[' '] + a + [' ']] + ([[' '] + b] + [a]), [a] + ([b] + [a]));
    Cons4(a, a, b, a);
  }

  lemma RepeatedTagText(a: string, b: string)
    ensures a + ", " + a + " , " + b + "," + a
            == a + [','] + ([' '] + a + [' '] + [','] + ([' '] + b + [','] + a))
  {
    assert ", " == [','] + [' '];
    assert " , " == [' '] + [','] + [' '];
    assert "," == [','];
  }

  lemma UniqueRepeated(a: string, b: string)
    requires a != b
    ensures Unique([a, a, b, a]) == [a, b]
  {
    var pieces := [a, a, b, a];
    assert pieces[..3] == [a, a, b] && pieces[..3][..2] == [a, a] && pieces[..3][..2][..1] == [a];
    assert Unique([a]) == [a];
    assert Unique([a, a]) == [a];
    assert Unique([a, a, b]) == [a, b];
  }

  /**
   * Normalising a reply that repeats one tag with stray spaces, as in
   * "dog, dog , cat,dog", gives the two distinct tags in order ("dog, cat").
   */
  lemma NormalizeRepeatedTag(a: string, b: string)
    requires a != [] && IsTrimmed(a) && ',' !in a
    requires b != [] && IsTrimmed(b) && ',' !in b
    requires a != b
    ensures NormalizeTags(a + ", " + a + " , " + b + "," + a) == a + ", " + b
  {
    TagListRepeated(a, b);
    JoinTwo(a, b, ", ");
  }

  lemma TagListRepeated(a: string, b: string)
    requires a != [] && IsTrimmed(a) && ',' !in a
    requires b != [] && IsTrimmed(b) && ',' !in b
    requires a != b
    ensures TagList(a + ", " + a + " , " + b + "," + a) == [a, b]
  {
    RepeatedTagPieces(a, b);
    DropEmptyOfNonEmpty([a, a, b, a]);
    UniqueRepeated(a, b);
  }

  lemma JoinTwo(a: string, b: string, sep: string)
    ensures Join([a, b], sep) == a + sep + b
  {
    assert [a, b][1..] == [b];
  }
}
