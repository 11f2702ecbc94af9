/** Tag parsing in `handleSubmit`: the raw tag field is split on commas,
    each piece is trimmed and the empty pieces are dropped
    (`tags.split(",").map(t => t.trim()).filter(t => t)`). */
module TagParsing {
  import opened AsciiText
  import opened Sequences

  const COMMA: char := ','

  /** How many times `c` occurs in `s`. */
  function Count(s: string, c: char): nat {
    if s == [] then 0 else (if s[0] == c then 1 else 0) + Count(s[1..], c)
  }

  /** `s.split(sep)` for a one-character separator: the pieces between the
      separators, so there is always one piece more than there are
      separators, and `"".split(sep)` is `[""]`. */
  function Split(s: string, sep: char): (parts: seq<string>)
    ensures |parts| == Count(s, sep) + 1
    ensures forall i :: 0 <= i < |parts| ==> sep !in parts[i]
  {
    if s == [] then [[]]
    else
      var rest := Split(s[1..], sep);
      if s[0] == sep then [[]] + rest
      else [[s[0]] + rest[0]] + rest[1..]
  }

  /** `parts.join(sep)`: the inverse of `Split`. */
  function Join(parts: seq<string>, sep: char): string {
    if parts == [] then []
    else if |parts| == 1 then parts[0]
    else parts[0] + [sep] + Join(parts[1..], sep)
  }

  /** Joining the pieces with the separator gives back the input. */
  lemma {:induction false} JoinSplit(s: string, sep: char)
    ensures Join(Split(s, sep), sep) == s
  {
    if s != [] {
      var rest := Split(s[1..], sep);
      JoinSplit(s[1..], sep);
      if s[0] == sep {
        assert ([[]] + rest)[1..] == rest;
      } else {
        var parts := [[s[0]] + rest[0]] + rest[1..];
        if |rest| > 1 {
          assert parts[1..] == rest[1..];
          assert Join(rest, sep) == rest[0] + [sep] + Join(rest[1..], sep);
        }
      }
    }
  }

  /** Splitting a piece with no separator in it, followed by a separator
      and more text, yields that piece first. */
  lemma {:induction false} SplitPiece(p: string, sep: char, t: string)
    requires sep !in p
    ensures Split(p + [sep] + t, sep) == [p] + Split(t, sep)
    ensures Split(p, sep) == [p]
  {
    if p != [] {
      SplitPiece(p[1..], sep, t);
      assert (p + [sep] + t)[1..] == p[1..] + [sep] + t;
      assert [p[0]] + p[1..] == p;
    } else {
      assert ([] + [sep] + t)[1..] == t;
    }
  }

  /** Splitting separator-free pieces joined by the separator gives back
      the pieces: `Split` and `Join` are inverse both ways. */
  lemma {:induction false} SplitJoin(parts: seq<string>, sep: char)
    requires |parts| >= 1
    requires forall i :: 0 <= i < |parts| ==> sep !in parts[i]
    ensures Split(Join(parts, sep), sep) == parts
  {
    SplitPiece(parts[0], sep, []);
    if |parts| > 1 {
      SplitJoin(parts[1..], sep);
      SplitPiece(parts[0], sep, Join(parts[1..], sep));
      assert [parts[0]] + parts[1..] == parts;
    }
  }

  /** The comma-separated segments of the raw field, each trimmed. */
  function Segments(raw: string): (segs: seq<string>)
    ensures |segs| == Count(raw, COMMA) + 1
  {
    var parts := Split(raw, COMMA);
    seq(|parts|, i requires 0 <= i < |parts| => Trim(parts[i]))
  }

  /** What every parsed tag looks like. */
  predicate IsCleanTag(t: string) {
    t != [] && !IsWhitespace(t[0]) && !IsWhitespace(t[|t| - 1]) && COMMA !in t
  }

  /** The filter `t => t` keeps exactly the non-empty strings. */
  predicate KeepTag(t: string) { t != [] }

  /** The tags of a new book: every one is clean, and there are at most
      as many as there are comma-separated segments. */
  function ParseTags(raw: string): (tags: seq<string>)
    ensures forall i :: 0 <= i < |tags| ==> IsCleanTag(tags[i])
    ensures |tags| <= Count(raw, COMMA) + 1
  {
    var parts := Split(raw, COMMA);
    var segs := Segments(raw);
    assert forall i :: 0 <= i < |segs| && segs[i] != [] ==> IsCleanTag(segs[i]) by {
      forall i | 0 <= i < |segs| && segs[i] != []
        ensures IsCleanTag(segs[i])
      {
        assert segs[i] == Trim(parts[i]);
      }
    }
    Filter(segs, KeepTag)
  }

  /** The tags keep the order of the segments they come from, a trimmed
      segment is a tag exactly when it is not empty, and a repeated tag is
      kept as often as it was typed. */
  lemma ParseTagsFollowsSegments(raw: string, t: string)
    ensures IsSubsequence(ParseTags(raw), Segments(raw))
    ensures t in ParseTags(raw) <==> t in Segments(raw) && t != []
    ensures t != [] ==> multiset(ParseTags(raw))[t] == multiset(Segments(raw))[t]
  {
    FilterIsSubsequence(Segments(raw), KeepTag);
    FilterMembership(Segments(raw), KeepTag, t);
    FilterCount(Segments(raw), KeepTag, t);
  }

  /** An empty tag field gives no tags. */
  lemma ParseTagsOfEmpty()
    ensures ParseTags("") == []
  {
  }

  /** A field with spaces around the tags and one blank segment. */
  lemma ParseTagsExample()
    ensures ParseTags("fiction, sci-fi, , favorite") == ["fiction", "sci-fi", "favorite"]
  {
    ExampleSplit();
    ExampleTags("fiction, sci-fi, , favorite");
  }

  lemma ExampleSplit()
    ensures Split("fiction, sci-fi, , favorite", COMMA) == ["fiction", " sci-fi", " ", " favorite"]
  {
    var parts := ["fiction", " sci-fi", " ", " favorite"];
    assert Join(parts, COMMA) == "fiction, sci-fi, , favorite";
    SplitJoin(parts, COMMA);
  }

  lemma ExampleTags(raw: string)
    requires Split(raw, COMMA) == ["fiction", " sci-fi", " ", " favorite"]
    ensures ParseTags(raw) == ["fiction", "sci-fi", "favorite"]
  {
    var parts := Split(raw, COMMA);
    var segs := ["fiction", "sci-fi", "", "favorite"];
    SpaceThenWord(segs[0], parts[0]);
    SpaceThenWord(segs[1], parts[1]);
    SpaceThenWord(segs[2], parts[2]);
    SpaceThenWord(segs[3], parts[3]);
    assert Segments(raw) == segs;
    assert Filter(segs, KeepTag) == ["fiction", "sci-fi", "favorite"];
  }

  /** A word with no whitespace at either end is what trimming gives back,
      whether or not one space precedes it. */
  lemma SpaceThenWord(w: string, piece: string)
    requires w != [] ==> !IsWhitespace(w[0]) && !IsWhitespace(w[|w| - 1])
    requires piece == w || piece == [' '] + w
    ensures Trim(piece) == w
  {
    TrimKeepsTrimmed(w);
    TrimDropsLeading(' ', w);
  }
}
