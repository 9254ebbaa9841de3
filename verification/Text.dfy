/** Text as the compressor sees it: stripping, splitting into sentences, joining, and
    the characters of a text that are not white space. */
module Text {
  import opened Basics

  /** The characters that str.isspace and the regular-expression class \s accept. */
  predicate IsSpace(c: char) {
    || '\t' <= c <= '\r' || '\U{1c}' <= c <= ' ' || c == '\U{85}' || c == '\U{a0}'
    || c == '\U{1680}' || '\U{2000}' <= c <= '\U{200a}' || '\U{2028}' <= c <= '\U{2029}'
    || c == '\U{202f}' || c == '\U{205f}' || c == '\U{3000}'
  }

  /** White space by code point: the 29 that Python counts as such. */
  lemma SpacesAre(c: char)
    ensures IsSpace(c) <==>
      (c as int) in {9, 10, 11, 12, 13, 28, 29, 30, 31, 32, 133, 160, 5760, 8192, 8193, 8194, 8195, 8196, 8197, 8198,
                     8199, 8200, 8201, 8202, 8232, 8233, 8239, 8287, 12288}
  {
  }

  /** The non-white-space characters of a text, in order. */
  function Solid(s: string): string {
    if s == [] then [] else (if IsSpace(s[0]) then [] else [s[0]]) + Solid(s[1..])
  }

  predicate Blank(s: string) {
    Solid(s) == []
  }

  lemma {:induction false} SolidConcat(a: string, b: string)
    ensures Solid(a + b) == Solid(a) + Solid(b)
  {
    hide IsSpace;
    if a == [] {
      assert a + b == b;
    } else {
      SolidConcat(a[1..], b);
      assert (a + b)[0] == a[0] && (a + b)[1..] == a[1..] + b;
      var head := if IsSpace(a[0]) then [] else [a[0]];
      Assoc(head, Solid(a[1..]), Solid(b));
    }
  }

  lemma Assoc(a: string, b: string, c: string)
    ensures (a + b) + c == a + (b + c)
  {
  }

  // ----- Stripping -----

  function StripLeft(s: string): string {
    if s != [] && IsSpace(s[0]) then StripLeft(s[1..]) else s
  }

  function StripRight(s: string): string {
    if s != [] && IsSpace(s[|s| - 1]) then StripRight(s[..|s| - 1]) else s
  }

  lemma {:induction false} StripLeftExact(s: string)
    ensures var r := StripLeft(s);
      && |r| <= |s| && r == s[|s| - |r|..] && Blank(s[..|s| - |r|])
      && (r != [] ==> !IsSpace(r[0]))
  {
    hide IsSpace;
    if s != [] && IsSpace(s[0]) {
      StripLeftExact(s[1..]);
      var k := |s| - |StripLeft(s)|;
      assert s[..k][1..] == s[1..][..k - 1];
    }
  }

  lemma {:induction false} StripRightExact(s: string)
    ensures var r := StripRight(s);
      && |r| <= |s| && r == s[..|r|] && Blank(s[|r|..])
      && (r != [] ==> !IsSpace(r[|r| - 1]))
  {
    hide IsSpace;
    if s != [] && IsSpace(s[|s| - 1]) {
      var init, r := s[..|s| - 1], StripRight(s);
      StripRightExact(init);
      SolidConcat(init[|r|..], [s[|s| - 1]]);
      assert s[|r|..] == init[|r|..] + [s[|s| - 1]];
      assert [s[|s| - 1]][1..] == [];
    }
  }

  function Strip(s: string): string {
    StripRight(StripLeft(s))
  }

  /** Stripping drops white space only, and exactly the white space at both ends. */
  lemma StripExact(s: string)
    ensures Solid(Strip(s)) == Solid(s)
    ensures |Strip(s)| <= |s|
    ensures Strip(s) == [] <==> Blank(s)
    ensures Strip(s) != [] ==> !IsSpace(Strip(s)[0]) && !IsSpace(Strip(s)[|Strip(s)| - 1])
    ensures exists a, b :: 0 <= a <= b <= |s| && Strip(s) == s[a..b] && Blank(s[..a]) && Blank(s[b..])
  {
    hide IsSpace, Solid, StripLeft, StripRight;
    var l := StripLeft(s);
    var r := StripRight(l);
    StripLeftExact(s);
    StripRightExact(l);
    var a := |s| - |l|;
    var b := a + |r|;
    SlicedSolid(s, a, b);
    assert s[b..] == l[|r|..];
    assert r == s[a..b];
    NotBlank(r);
    if r != [] {
      assert r[0] == l[0];
    }
  }

  lemma SlicedSolid(s: string, a: nat, b: nat)
    requires a <= b <= |s| && Blank(s[..a]) && Blank(s[b..])
    ensures Solid(s[a..b]) == Solid(s)
  {
    hide Solid;
    assert s == s[..a] + s[a..b] + s[b..];
    TrimmedSolid(s[..a], s[a..b], s[b..]);
  }

  lemma TrimmedSolid(x: string, y: string, z: string)
    requires Blank(x) && Blank(z)
    ensures Solid(x + y + z) == Solid(y)
  {
    hide Solid;
    SolidConcat(x + y, z);
    SolidConcat(x, y);
    NoEnds(Solid(y));
  }

  lemma NoEnds(y: string)
    ensures [] + y + [] == y && [] + y == y
  {
  }

  lemma NotBlank(r: string)
    ensures r != [] && !IsSpace(r[0]) ==> !Blank(r)
    ensures r == [] ==> Blank(r)
  {
    hide IsSpace;
  }

  /** A stripped non-empty text keeps a character when cut to a positive length. */
  lemma PrefixNotBlank(s: string, k: nat)
    requires s != [] && !IsSpace(s[0]) && 0 < k <= |s|
    ensures Strip(s[..k]) != []
  {
    hide IsSpace, Strip;
    var p := s[..k];
    assert p[0] == s[0] && Solid(p) != [];
    StripExact(p);
  }

  // ----- Splitting into sentences -----

  predicate EndsSentence(c: char) {
    c == '\U{3002}' || c == '\U{ff01}' || c == '\U{ff1f}' || c == '.' || c == '!' || c == '?'
  }

  function SpaceRun(s: string, i: nat): (r: nat)
    requires i <= |s|
    ensures i + r <= |s| && Blank(s[i..i + r])
    ensures i < |s| && IsSpace(s[i]) ==> r > 0
    decreases |s| - i
  {
    if i < |s| && IsSpace(s[i]) then
      var r := SpaceRun(s, i + 1);
      assert s[i..i + 1 + r][1..] == s[i + 1..i + 1 + r];
      1 + r
    else 0
  }

  function NewlineRun(s: string, i: nat): (r: nat)
    requires i <= |s|
    ensures i + r <= |s| && Blank(s[i..i + r])
    ensures i < |s| && s[i] == '\n' ==> r > 0
    decreases |s| - i
  {
    if i < |s| && s[i] == '\n' then
      var r := NewlineRun(s, i + 1);
      assert s[i..i + 1 + r][1..] == s[i + 1..i + 1 + r];
      1 + r
    else 0
  }

  /** The length of the separator matched at `i`: white space after an end mark, or
      line feeds; 0 where nothing matches. */
  function Separator(s: string, i: nat): (r: nat)
    requires i < |s|
    ensures i + r <= |s| && Blank(s[i..i + r])
  {
    if i > 0 && EndsSentence(s[i - 1]) && IsSpace(s[i]) then SpaceRun(s, i) else NewlineRun(s, i)
  }

  /** The pieces between the separators, where the current piece began at `start`. */
  function Pieces(s: string, start: nat, i: nat): seq<string>
    requires start <= i <= |s|
    decreases |s| - i
  {
    if i == |s| then [s[start..]]
    else
      var m := Separator(s, i);
      if m > 0 then [s[start..i]] + Pieces(s, i + m, i + m) else Pieces(s, start, i + 1)
  }

  /** The stripped pieces that are not blank. */
  function Cleaned(pieces: seq<string>): seq<string> {
    if pieces == [] then []
    else (if Strip(pieces[0]) != [] then [Strip(pieces[0])] else []) + Cleaned(pieces[1..])
  }

  function Sentences(content: string): seq<string> {
    Cleaned(Pieces(content, 0, 0))
  }

  function SolidAll(parts: seq<string>): string {
    if parts == [] then [] else Solid(parts[0]) + SolidAll(parts[1..])
  }

  lemma {:induction false} PiecesSolid(s: string, start: nat, i: nat)
    requires start <= i <= |s|
    ensures SolidAll(Pieces(s, start, i)) == Solid(s[start..])
    decreases |s| - i
  {
    hide IsSpace, EndsSentence, Separator, Solid;
    if i < |s| {
      var m := Separator(s, i);
      if m > 0 {
        var j := i + m;
        PiecesSolid(s, j, j);
        SolidConcat(s[i..j], s[j..]);
        SolidConcat(s[start..i], s[i..]);
        assert s[i..] == s[i..j] + s[j..];
        assert s[start..] == s[start..i] + s[i..];
        NoEnds(Solid(s[j..]));
        var rest := Pieces(s, j, j);
        assert ([s[start..i]] + rest)[1..] == rest;
      } else {
        PiecesSolid(s, start, i + 1);
      }
    } else {
      assert [s[start..]][1..] == [];
    }
  }

  ghost predicate AllStripped(parts: seq<string>) {
    forall k :: 0 <= k < |parts| ==> parts[k] != [] && !IsSpace(parts[k][0])
  }

  lemma {:induction false} CleanedSolid(pieces: seq<string>)
    ensures SolidAll(Cleaned(pieces)) == SolidAll(pieces)
    ensures AllStripped(Cleaned(pieces))
  {
    hide IsSpace, Strip, Solid, AllStripped;
    if pieces == [] {
      NothingStripped();
    } else {
      CleanedSolid(pieces[1..]);
      StripExact(pieces[0]);
      var rest := Cleaned(pieces[1..]);
      if Strip(pieces[0]) != [] {
        StrippedCons(Strip(pieces[0]), rest);
      } else {
        assert [] + rest == rest;
        NoEnds(SolidAll(rest));
      }
    }
  }

  lemma NothingStripped()
    ensures AllStripped([])
  {
  }

  lemma StrippedCons(first: string, rest: seq<string>)
    requires first != [] && !IsSpace(first[0]) && AllStripped(rest)
    ensures AllStripped([first] + rest)
    ensures SolidAll([first] + rest) == Solid(first) + SolidAll(rest)
  {
    hide IsSpace, Solid;
    assert ([first] + rest)[1..] == rest;
  }

  /** Splitting loses white space only, and a text has a sentence unless it is blank. */
  lemma SentencesLoseOnlySpace(content: string)
    ensures SolidAll(Sentences(content)) == Solid(content)
    ensures AllStripped(Sentences(content))
    ensures Sentences(content) == [] <==> Blank(content)
  {
    hide IsSpace, Pieces, Cleaned, Solid;
    PiecesSolid(content, 0, 0);
    assert content[0..] == content;
    CleanedSolid(Pieces(content, 0, 0));
    var ss := Sentences(content);
    if ss != [] {
      NotBlank(ss[0]);
      assert SolidAll(ss) == Solid(ss[0]) + SolidAll(ss[1..]);
    }
  }

  // ----- Where a text is split -----

  /** The six marks that can end a sentence: full stop, exclamation and question mark, in
      their ideographic and full-width forms and in ASCII. */
  predicate IsMark(c: char) {
    c in ['\U{3002}', '\U{ff01}', '\U{ff1f}', '.', '!', '?']
  }

  /** No line feed, and no white space directly after an end mark. */
  ghost predicate Unsplit(x: string) {
    && (forall k :: 0 <= k < |x| ==> x[k] != '\n')
    && (forall k :: 0 <= k < |x| - 1 && IsMark(x[k]) ==> !IsSpace(x[k + 1]))
  }

  ghost predicate AllUnsplit(parts: seq<string>) {
    forall k :: 0 <= k < |parts| ==> Unsplit(parts[k])
  }

  /** Between `from` and `to` there is a line feed, or an end mark stands before it. */
  ghost predicate Boundary(s: string, from: nat, to: nat) {
    || (exists q :: from <= q < to && q < |s| && s[q] == '\n')
    || (0 < from <= |s| && IsMark(s[from - 1]))
  }

  /** The parts lie in the text from `from` on, in order; around them there is only white
      space, and between two of them a boundary. */
  ghost predicate Placed(s: string, from: nat, starts: seq<nat>, ends: seq<nat>, parts: seq<string>) {
    && |starts| == |ends| == |parts| && from <= |s|
    && (forall k :: 0 <= k < |parts| ==> from <= starts[k] && PlacedAt(s, starts[k], ends[k], parts[k]))
    && (parts == [] ==> Blank(s[from..]))
    && (parts != [] ==> Blank(s[from..starts[0]]) && Blank(s[ends[|parts| - 1]..]))
    && (forall k :: 0 <= k < |parts| - 1 ==> Gap(s, ends[k], starts[k + 1]))
  }

  ghost predicate PlacedAt(s: string, start: nat, end: nat, part: string) {
    start < end <= |s| && s[start..end] == part
  }

  /** White space with a boundary. */
  ghost predicate Gap(s: string, from: nat, to: nat) {
    from <= to <= |s| && Blank(s[from..to]) && Boundary(s, from, to)
  }

  lemma {:induction false} BlankSplit(s: string, a: nat, b: nat, c: nat)
    requires a <= b <= c <= |s|
    ensures Blank(s[a..c]) <==> Blank(s[a..b]) && Blank(s[b..c])
  {
    SolidConcat(s[a..b], s[b..c]);
    assert s[a..c] == s[a..b] + s[b..c];
  }

  lemma PlacedAfterBlank(s: string, from: nat, next: nat, starts: seq<nat>, ends: seq<nat>, parts: seq<string>)
    requires from <= next && Placed(s, next, starts, ends, parts) && Blank(s[from..next])
    ensures Placed(s, from, starts, ends, parts)
  {
    hide Blank, Gap, PlacedAt;
    if parts == [] {
      BlankSplit(s, from, next, |s|);
      assert s[from..|s|] == s[from..] && s[next..|s|] == s[next..];
    } else {
      FirstWithin(s, next, starts, ends, parts);
      BlankSplit(s, from, next, starts[0]);
    }
  }

  lemma PlacedCons(s: string, from: nat, a: nat, b: nat, next: nat, starts: seq<nat>, ends: seq<nat>,
                   parts: seq<string>)
    requires from <= a < b <= next && Placed(s, next, starts, ends, parts)
    requires Blank(s[from..a]) && Blank(s[b..next]) && Boundary(s, b, next)
    ensures Placed(s, from, [a] + starts, [b] + ends, [s[a..b]] + parts)
  {
    hide Blank, Gap, PlacedAt, Boundary;
    var starts', ends', parts' := [a] + starts, [b] + ends, [s[a..b]] + parts;
    ItselfPlaced(s, a, b);
    if parts == [] {
      BlankSplit(s, b, next, |s|);
      assert s[b..|s|] == s[b..] && s[next..|s|] == s[next..];
    } else {
      FirstWithin(s, next, starts, ends, parts);
      GapGrows(s, b, next, starts[0]);
      assert ends'[|parts'| - 1] == ends[|parts| - 1];
    }
    forall k | 0 <= k < |parts'| ensures from <= starts'[k] && PlacedAt(s, starts'[k], ends'[k], parts'[k]) {
      if k > 0 {
        assert starts'[k] == starts[k - 1] && ends'[k] == ends[k - 1] && parts'[k] == parts[k - 1];
      }
    }
    forall k | 0 <= k < |parts'| - 1 ensures Gap(s, ends'[k], starts'[k + 1]) {
      if k > 0 {
        assert ends'[k] == ends[k - 1] && starts'[k + 1] == starts[k - 1 + 1];
      }
    }
  }

  lemma ItselfPlaced(s: string, a: nat, b: nat)
    requires a < b <= |s|
    ensures PlacedAt(s, a, b, s[a..b])
  {
  }

  lemma FirstWithin(s: string, from: nat, starts: seq<nat>, ends: seq<nat>, parts: seq<string>)
    requires parts != [] && Placed(s, from, starts, ends, parts)
    ensures from <= starts[0] < |s| && Blank(s[from..starts[0]])
  {
    assert PlacedAt(s, starts[0], ends[0], parts[0]);
  }

  lemma GapGrows(s: string, from: nat, to: nat, more: nat)
    requires from <= to <= more <= |s| && Blank(s[from..to]) && Boundary(s, from, to) && Blank(s[to..more])
    ensures Gap(s, from, more)
  {
    hide Blank;
    BlankSplit(s, from, to, more);
    BoundaryGrows(s, from, to, more);
  }

  lemma BoundaryGrows(s: string, from: nat, to: nat, more: nat)
    requires Boundary(s, from, to) && to <= more
    ensures Boundary(s, from, more)
  {
  }

  lemma MarkIsVisible(c: char)
    ensures IsMark(c) <==> EndsSentence(c)
    ensures IsMark(c) ==> !IsSpace(c)
  {
  }

  /** The stripped piece between two positions, located in the text. */
  lemma PieceLocated(s: string, start: nat, i: nat) returns (a: nat, b: nat)
    requires start <= i <= |s|
    ensures start <= a <= b <= i && Strip(s[start..i]) == s[a..b] && Blank(s[start..a]) && Blank(s[b..i])
    ensures a == b ==> Blank(s[start..i])
    ensures a < b && i > start && !IsSpace(s[i - 1]) ==> b == i
  {
    hide Blank, IsSpace, Strip;
    var p, q := StripLocated(s[start..i]);
    a, b := start + p, start + q;
    SubSlices(s, start, i, p, q);
    if i > start && !IsSpace(s[i - 1]) && b < i {
      VisibleNotBlank(s[b..i]);
      assert false;
    }
  }

  lemma StripLocated(x: string) returns (p: nat, q: nat)
    ensures p <= q <= |x| && Strip(x) == x[p..q] && Blank(x[..p]) && Blank(x[q..])
    ensures p == q ==> Blank(x)
  {
    hide Blank, IsSpace, Strip;
    StripExact(x);
    p, q :| 0 <= p <= q <= |x| && Strip(x) == x[p..q] && Blank(x[..p]) && Blank(x[q..]);
  }

  lemma SubSlices(s: string, start: nat, i: nat, p: nat, q: nat)
    requires p <= q <= i - start && i <= |s|
    ensures var x := s[start..i];
      x[..p] == s[start..start + p] && x[q..] == s[start + q..i] && x[p..q] == s[start + p..start + q]
  {
    var x := s[start..i];
    forall k | 0 <= k < q - p ensures x[p..q][k] == s[start + p..start + q][k] {
      assert x[p..q][k] == x[p + k];
    }
  }

  lemma VisibleNotBlank(x: string)
    requires x != [] && !IsSpace(x[|x| - 1])
    ensures !Blank(x)
  {
    hide IsSpace, Solid;
    SolidConcat(x[..|x| - 1], [x[|x| - 1]]);
    assert x == x[..|x| - 1] + [x[|x| - 1]];
    NotBlank([x[|x| - 1]]);
  }

  /** A separator ends in white space only and makes a boundary wherever the visible text
      before it stops. */
  lemma SeparatorBounds(s: string, i: nat, b: nat)
    requires b <= i < |s| && Separator(s, i) > 0
    requires i > 0 && IsMark(s[i - 1]) ==> b == i
    ensures Boundary(s, b, i + Separator(s, i))
  {
    hide IsSpace, EndsSentence, SpaceRun, IsMark;
    if i > 0 {
      MarkIsVisible(s[i - 1]);
    }
    if !(i > 0 && EndsSentence(s[i - 1]) && IsSpace(s[i])) {
      assert NewlineRun(s, i) > 0;
      assert s[i] == '\n';
    }
  }

  lemma {:induction false} PiecesPlaced(s: string, start: nat, i: nat) returns (starts: seq<nat>, ends: seq<nat>)
    requires start <= i <= |s|
    ensures Placed(s, start, starts, ends, Cleaned(Pieces(s, start, i)))
    decreases |s| - i
  {
    hide IsSpace, EndsSentence, Separator, Solid, Boundary, Strip, IsMark, Placed;
    if i == |s| {
      var a, b := PieceLocated(s, start, i);
      assert s[start..|s|] == s[start..];
      LastPlaced(s, start, a, b);
      starts, ends := if a < b then [a] else [], if a < b then [b] else [];
      CleanedOne(s[start..]);
    } else {
      var m := Separator(s, i);
      if m > 0 {
        var next := i + m;
        starts, ends := PiecesPlaced(s, next, next);
        var a, b := PieceLocated(s, start, i);
        var rest := Pieces(s, next, next);
        assert ([s[start..i]] + rest)[1..] == rest;
        BlankSplit(s, b, i, next);
        if a < b {
          if i > 0 {
            MarkIsVisible(s[i - 1]);
          }
          SeparatorBounds(s, i, b);
          PlacedCons(s, start, a, b, next, starts, ends, Cleaned(rest));
          starts, ends := [a] + starts, [b] + ends;
        } else {
          BlankSplit(s, start, i, next);
          PlacedAfterBlank(s, start, next, starts, ends, Cleaned(rest));
          assert Strip(s[start..i]) == [];
          assert [] + Cleaned(rest) == Cleaned(rest);
        }
      } else {
        starts, ends := PiecesPlaced(s, start, i + 1);
      }
    }
  }

  lemma CleanedOne(x: string)
    ensures Cleaned([x]) == if Strip(x) != [] then [Strip(x)] else []
  {
    hide Strip;
    assert [x][1..] == [];
    assert Cleaned([]) == [];
  }

  lemma LastPlaced(s: string, start: nat, a: nat, b: nat)
    requires start <= a <= b <= |s| && Blank(s[start..a]) && Blank(s[b..|s|]) && (a == b ==> Blank(s[start..]))
    ensures a < b ==> Placed(s, start, [a], [b], [s[a..b]])
    ensures a == b ==> Placed(s, start, [], [], [])
  {
    hide Blank, Boundary;
    assert s[b..|s|] == s[b..];
  }

  lemma {:induction false} PiecesUnsplit(s: string, start: nat, i: nat)
    requires start <= i <= |s| && Unsplit(s[start..i])
    ensures AllUnsplit(Pieces(s, start, i))
    decreases |s| - i
  {
    hide IsSpace, EndsSentence, Separator, Unsplit, IsMark;
    if i < |s| {
      var m := Separator(s, i);
      if m > 0 {
        assert s[i + m..i + m] == [];
        NothingUnsplit();
        PiecesUnsplit(s, i + m, i + m);
      } else {
        UnsplitGrows(s, start, i);
        PiecesUnsplit(s, start, i + 1);
      }
    } else {
      assert s[start..i] == s[start..];
    }
  }

  lemma NothingUnsplit()
    ensures Unsplit([])
  {
  }

  lemma UnsplitGrows(s: string, start: nat, i: nat)
    requires start <= i < |s| && Unsplit(s[start..i]) && Separator(s, i) == 0
    ensures Unsplit(s[start..i + 1])
  {
    hide IsSpace, EndsSentence, IsMark;
    var x, y := s[start..i], s[start..i + 1];
    assert y == x + [s[i]];
    if i > 0 {
      MarkIsVisible(s[i - 1]);
    }
    assert s[i] != '\n';
    if i > start {
      assert y[|y| - 2] == s[i - 1];
    }
  }

  lemma {:induction false} CleanedUnsplit(pieces: seq<string>)
    requires AllUnsplit(pieces)
    ensures AllUnsplit(Cleaned(pieces))
  {
    hide Strip, Unsplit;
    if pieces != [] {
      assert forall k :: 0 <= k < |pieces[1..]| ==> pieces[1..][k] == pieces[k + 1];
      CleanedUnsplit(pieces[1..]);
      StripUnsplit(pieces[0]);
    }
  }

  lemma StripUnsplit(x: string)
    requires Unsplit(x)
    ensures Unsplit(Strip(x))
  {
    hide IsSpace, Solid, Strip, IsMark;
    StripExact(x);
    var a, b :| 0 <= a <= b <= |x| && Strip(x) == x[a..b];
    assert forall k :: 0 <= k < b - a ==> x[a..b][k] == x[a + k];
  }

  /** A text is split at line feeds and after end marks followed by white space, and nowhere
      else: no sentence has such a place inside, the sentences lie in the text in order with
      only white space around them, and between any two there is such a place. */
  lemma SplitExactly(content: string) returns (starts: seq<nat>, ends: seq<nat>)
    ensures AllUnsplit(Sentences(content))
    ensures Placed(content, 0, starts, ends, Sentences(content))
  {
    hide IsSpace, EndsSentence, Separator, Pieces, Cleaned, Placed, Unsplit;
    assert content[0..0] == [];
    NothingUnsplit();
    PiecesUnsplit(content, 0, 0);
    CleanedUnsplit(Pieces(content, 0, 0));
    starts, ends := PiecesPlaced(content, 0, 0);
  }

  /** A text without white space or end marks: nothing to strip and nowhere to split. */
  predicate Unbroken(s: string) {
    s != [] && forall k :: 0 <= k < |s| ==> !IsSpace(s[k]) && !EndsSentence(s[k])
  }

  /** Over visible characters the search for a separator just moves on. */
  lemma {:induction false} PiecesSkip(s: string, start: nat, i: nat, j: nat)
    requires start <= i <= j <= |s|
    requires forall k :: i <= k < j ==> !IsSpace(s[k])
    ensures Pieces(s, start, i) == Pieces(s, start, j)
    decreases j - i
  {
    if i < j {
      assert !IsSpace(s[i]);
      PiecesSkip(s, start, i + 1, j);
    }
  }

  lemma StripUnbroken(s: string)
    requires Unbroken(s)
    ensures Strip(s) == s
  {
  }

  lemma OneSentence(s: string)
    requires Unbroken(s)
    ensures Sentences(s) == [s]
  {
    hide IsSpace, EndsSentence, Strip;
    PiecesSkip(s, 0, 0, |s|);
    StripUnbroken(s);
    assert Pieces(s, 0, |s|) == [s];
    assert Cleaned([]) == [] && [s][1..] == [];
  }

  lemma TwoSentences(x: string, y: string)
    requires Unbroken(x) && Unbroken(y)
    ensures Sentences(x + "\n" + y) == [x, y]
  {
    hide EndsSentence, Strip;
    var s := x + "\n" + y;
    var n := |x|;
    assert s[..n] == x && s[n] == '\n' && s[n + 1..] == y;
    PiecesSkip(s, 0, 0, n);
    forall k | n + 1 <= k < |s| ensures !IsSpace(s[k]) {
      assert s[k] == y[k - n - 1];
    }
    PiecesSkip(s, n + 1, n + 1, |s|);
    assert Pieces(s, n + 1, |s|) == [y];
    assert s[n - 1] == x[n - 1];
    assert Separator(s, n) == 1;
    assert Pieces(s, 0, n) == [x] + [y];
    StripUnbroken(x);
    StripUnbroken(y);
    CleanedPair(x, y);
  }

  lemma CleanedPair(x: string, y: string)
    requires x != [] && y != [] && Strip(x) == x && Strip(y) == y
    ensures Cleaned([x] + [y]) == [x, y]
  {
    hide Strip;
    assert ([x] + [y])[1..] == [y] && [y][1..] == [];
    assert Cleaned([]) == [];
    assert Cleaned([y]) == [y];
  }

  // ----- Joining -----

  /** sep.join(parts) */
  function Join(sep: string, parts: seq<string>): string {
    if parts == [] then []
    else if |parts| == 1 then parts[0]
    else Join(sep, parts[..|parts| - 1]) + sep + parts[|parts| - 1]
  }

  function TotalLength(parts: seq<string>): nat {
    if parts == [] then 0 else TotalLength(parts[..|parts| - 1]) + |parts[|parts| - 1]|
  }

  lemma {:induction false} JoinLength(sep: string, parts: seq<string>)
    ensures |Join(sep, parts)| == TotalLength(parts) + (if parts == [] then 0 else (|parts| - 1) * |sep|)
  {
    if |parts| > 1 {
      JoinLength(sep, parts[..|parts| - 1]);
      assert (|parts| - 1) * |sep| == (|parts| - 2) * |sep| + |sep|;
    } else if |parts| == 1 {
      assert parts[..0] == [];
    }
  }

  /** Joining two lists puts one separator between them; a single part is itself. */
  lemma {:induction false} JoinAppend(sep: string, a: seq<string>, b: seq<string>)
    ensures Join(sep, a + b) == if a == [] then Join(sep, b) else if b == [] then Join(sep, a)
                                else Join(sep, a) + sep + Join(sep, b)
    ensures |a| == 1 ==> Join(sep, a) == a[0]
    ensures a == [] ==> Join(sep, a) == []
    decreases |b|
  {
    if a == [] {
      assert a + b == b;
    } else if b == [] {
      assert a + b == a;
    } else {
      var rest, last := b[..|b| - 1], b[|b| - 1];
      JoinAppend(sep, a, rest);
      assert (a + b)[..|a + b| - 1] == a + rest;
      assert b == rest + [last];
      if rest == [] {
        assert a + rest == a;
      } else {
        Reassociate(Join(sep, a), sep, Join(sep, rest), last);
      }
    }
  }

  lemma Reassociate(x: string, sep: string, y: string, z: string)
    ensures (x + sep + y) + sep + z == x + sep + (y + sep + z)
  {
  }

  lemma {:induction false} SolidAllAppend(parts: seq<string>, last: string)
    ensures SolidAll(parts + [last]) == SolidAll(parts) + Solid(last)
  {
    hide Solid;
    NoEnds(Solid(last));
    if parts != [] {
      SolidAllAppend(parts[1..], last);
      assert (parts + [last])[1..] == parts[1..] + [last];
      Assoc(Solid(parts[0]), SolidAll(parts[1..]), Solid(last));
    }
  }

  lemma {:induction false} JoinSolid(sep: string, parts: seq<string>)
    requires Blank(sep)
    ensures Solid(Join(sep, parts)) == SolidAll(parts)
  {
    hide IsSpace, Solid;
    if |parts| > 1 {
      var init, last := parts[..|parts| - 1], parts[|parts| - 1];
      JoinSolid(sep, init);
      SolidConcat(Join(sep, init) + sep, last);
      SolidConcat(Join(sep, init), sep);
      SolidAllAppend(init, last);
      NoEnds(Solid(Join(sep, init)));
      assert parts == init + [last];
    } else if |parts| == 1 {
      assert SolidAll(parts[1..]) == [];
    } else {
      NotBlank([]);
    }
  }
}
