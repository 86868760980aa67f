/** Slash-separated paths: splitting node names into segments and joining segments into keys. */
module Paths {

  // ---------------------------------------------------------------- split, strip, join

  /** str.split("/"). */
  function Split(s: string): (parts: seq<string>)
    ensures parts != []
  {
    if s == "" then [""] else Extend(s[0], Split(s[1..]))
  }

  function Extend(c: char, parts: seq<string>): (r: seq<string>)
    requires parts != []
    ensures r != []
  {
    if c == '/' then [""] + parts else [[c] + parts[0]] + parts[1..]
  }

  lemma ExtendConcat(c: char, a: seq<string>, b: seq<string>)
    requires a != []
    ensures Extend(c, a + b) == Extend(c, a) + b
  {
    assert (a + b)[1..] == a[1..] + b;
  }

  function NonEmpty(parts: seq<string>): seq<string> {
    if parts == [] then [] else (if parts[0] == "" then [] else [parts[0]]) + NonEmpty(parts[1..])
  }

  function StripLeft(s: string): string {
    if s != "" && s[0] == '/' then StripLeft(s[1..]) else s
  }

  function StripRight(s: string): string {
    if s != "" && s[|s| - 1] == '/' then StripRight(s[..|s| - 1]) else s
  }

  /** str.strip("/"). */
  function Strip(s: string): string { StripRight(StripLeft(s)) }

  /** "/".join(parts). */
  function Join(parts: seq<string>): string {
    if parts == [] then ""
    else if |parts| == 1 then parts[0]
    else parts[0] + "/" + Join(parts[1..])
  }

  function Pieces(s: string): seq<string> { NonEmpty(Split(s)) }

  predicate SlashFree(s: string) { '/' !in s }

  /** A proper segment: non-empty and without a slash. */
  predicate Segment(s: string) { s != "" && SlashFree(s) }

  lemma {:induction false} NonEmptyConcat(a: seq<string>, b: seq<string>)
    ensures NonEmpty(a + b) == NonEmpty(a) + NonEmpty(b)
  {
    if a == [] {
      assert a + b == b;
    } else {
      assert (a + b)[1..] == a[1..] + b;
      NonEmptyConcat(a[1..], b);
    }
  }

  lemma {:induction false} SplitAtSlash(a: string, b: string)
    ensures Split(a + "/" + b) == Split(a) + Split(b)
  {
    var s := a + "/" + b;
    if a == "" {
      assert s == "/" + b && s[1..] == b;
    } else {
      assert s[1..] == a[1..] + "/" + b;
      SplitAtSlash(a[1..], b);
      ExtendConcat(a[0], Split(a[1..]), Split(b));
    }
  }

  /** Pieces of a path are the pieces on either side of any slash. */
  lemma PiecesAtSlash(a: string, b: string)
    ensures Pieces(a + "/" + b) == Pieces(a) + Pieces(b)
  {
    SplitAtSlash(a, b);
    NonEmptyConcat(Split(a), Split(b));
  }

  lemma {:induction false} SplitSlashFree(s: string)
    requires SlashFree(s)
    ensures Split(s) == [s]
  {
    if s == "" {
    } else {
      assert s[0] in s;
      assert forall c | c in s[1..] :: c in s;
      SplitSlashFree(s[1..]);
      assert s == [s[0]] + s[1..];
    }
  }

  lemma PiecesOfSegment(s: string)
    requires Segment(s)
    ensures Pieces(s) == [s]
  {
    SplitSlashFree(s);
    var parts := [s];
    assert parts[1..] == [] && NonEmpty(parts) == [s] + NonEmpty(parts[1..]);
  }

  lemma {:induction false} PiecesAreSegments(s: string)
    ensures forall i | 0 <= i < |Split(s)| :: SlashFree(Split(s)[i])
    ensures forall i | 0 <= i < |Pieces(s)| :: Segment(Pieces(s)[i])
  {
    if s != "" {
      PiecesAreSegments(s[1..]);
      var parts := Split(s);
      assert forall i | 1 < i < |parts| && s[0] != '/' :: parts[i] == Split(s[1..])[i];
    }
    NonEmptyKeeps(Split(s));
  }

  lemma {:induction false} NonEmptyKeeps(parts: seq<string>)
    requires forall i | 0 <= i < |parts| :: SlashFree(parts[i])
    ensures forall i | 0 <= i < |NonEmpty(parts)| :: Segment(NonEmpty(parts)[i])
  {
    if parts == [] {
    } else {
      NonEmptyKeeps(parts[1..]);
    }
  }

  lemma StripKeepsPieces(s: string)
    ensures Pieces(StripLeft(s)) == Pieces(s) && Pieces(StripRight(s)) == Pieces(s)
  {
    StripLeftKeepsPieces(s);
    StripRightKeepsPieces(s);
  }

  lemma {:induction false} StripLeftKeepsPieces(s: string)
    ensures Pieces(StripLeft(s)) == Pieces(s)
  {
    if s != "" && s[0] == '/' {
      StripLeftKeepsPieces(s[1..]);
      OuterSlash(s[1..]);
      assert s == "/" + s[1..];
    }
  }

  lemma {:induction false} StripRightKeepsPieces(s: string)
    ensures Pieces(StripRight(s)) == Pieces(s)
  {
    if s != "" && s[|s| - 1] == '/' {
      StripRightKeepsPieces(s[..|s| - 1]);
      OuterSlash(s[..|s| - 1]);
      assert s == s[..|s| - 1] + "/";
    }
  }

  lemma OuterSlash(s: string)
    ensures Pieces("/" + s) == Pieces(s) == Pieces(s + "/")
  {
    PiecesAtSlash("", s);
    PiecesAtSlash(s, "");
    assert "" + "/" + s == "/" + s && s + "/" + "" == s + "/";
    assert Pieces("") == [];
    assert [] + Pieces(s) == Pieces(s) == Pieces(s) + [];
  }

  // ---------------------------------------------------------------- aggregation paths

  /** The configured root, stripped, or the default. */
  function RootName(configured: string): string {
    if Strip(configured) == "" then "Robot" else Strip(configured)
  }

  function Segments(root: string, name: string): (segs: seq<string>)
    ensures segs != [] && segs[0] == root
  {
    var pieces := Pieces(Strip(name));
    if pieces != [] && pieces[0] == root then [root] + pieces[1..] else [root] + pieces
  }

  function PathOf(segs: seq<string>, length: nat): string
    requires length <= |segs|
  {
    "/" + Join(segs[..length])
  }

  lemma SegmentsTail(root: string, name: string)
    ensures forall i | 1 <= i < |Segments(root, name)| :: Segment(Segments(root, name)[i])
  {
    PiecesAreSegments(Strip(name));
  }

  lemma {:induction false} PiecesOfJoin(segs: seq<string>)
    requires segs != [] && forall i | 1 <= i < |segs| :: Segment(segs[i])
    ensures Pieces(Join(segs)) == Pieces(segs[0]) + segs[1..]
  {
    if |segs| > 1 {
      var rest := segs[1..];
      PiecesOfJoin(rest);
      PiecesOfSegment(rest[0]);
      assert rest == [rest[0]] + rest[1..];
      PiecesAtSlash(segs[0], Join(rest));
    } else {
      assert segs[1..] == [];
    }
  }

  /** Joining proper segments and splitting again gives them back. */
  lemma PiecesOfSegments(segs: seq<string>)
    requires forall i | 0 <= i < |segs| :: Segment(segs[i])
    ensures Pieces(Join(segs)) == segs
  {
    if segs != [] {
      PiecesOfJoin(segs);
      PiecesOfSegment(segs[0]);
    }
  }

  /** Joining one more part. */
  lemma {:induction false} JoinSnoc(parts: seq<string>, part: string)
    ensures Join([]) == "" && Join([part]) == part
    ensures parts != [] ==> Join(parts + [part]) == Join(parts) + "/" + part
  {
    if |parts| > 1 {
      JoinSnoc(parts[1..], part);
      assert (parts + [part])[1..] == parts[1..] + [part];
    } else if parts != [] {
      assert (parts + [part])[1..] == [part];
    }
  }

  lemma JoinHead(first: string, rest: seq<string>)
    ensures "/" + Join([first] + rest) == if rest == [] then "/" + first else "/" + first + "/" + Join(rest)
  {
    if rest == [] {
      assert [first] + rest == [first];
    } else {
      assert ([first] + rest)[1..] == rest;
      assert "/" + (first + "/" + Join(rest)) == "/" + first + "/" + Join(rest);
    }
  }

  /** A path one segment longer is the path, a slash and the segment; the first is a slash and the root. */
  lemma PathGrows(segs: seq<string>, n: nat)
    requires n < |segs|
    ensures PathOf(segs, 1) == "/" + segs[0]
    ensures n > 0 ==> PathOf(segs, n + 1) == PathOf(segs, n) + "/" + segs[n]
  {
    assert segs[..1] == [segs[0]] && segs[..n + 1] == segs[..n] + [segs[n]];
    JoinSnoc(segs[..n], segs[n]);
  }

  /** Outer slashes do not change the segments of a name, doubled inner ones neither. */
  lemma SlashesIgnored(root: string, a: string, b: string)
    ensures Segments(root, "/" + a) == Segments(root, a) == Segments(root, a + "/")
    ensures Segments(root, a + "//" + b) == Segments(root, a + "/" + b)
  {
    OuterSlash(a);
    DoubledSlash(a, b);
    SamePieces(root, "/" + a, a);
    SamePieces(root, a + "/", a);
    SamePieces(root, a + "//" + b, a + "/" + b);
  }

  lemma SamePieces(root: string, a: string, b: string)
    requires Pieces(a) == Pieces(b)
    ensures Segments(root, a) == Segments(root, b)
  {
    StrippedPieces(a);
    StrippedPieces(b);
  }

  lemma DoubledSlash(a: string, b: string)
    ensures Pieces(a + "//" + b) == Pieces(a + "/" + b)
  {
    assert a + "//" + b == a + "/" + ("/" + b);
    PiecesAtSlash(a, "/" + b);
    PiecesAtSlash(a, b);
    OuterSlash(b);
  }

  lemma StrippedPieces(s: string)
    ensures Pieces(Strip(s)) == Pieces(s)
  {
    StripKeepsPieces(s);
    StripKeepsPieces(StripLeft(s));
  }

  /** The segments of a name that is given by its segments: the root, then those segments, less a first one
      that is the root itself. */
  lemma SegmentsOfName(root: string, segs: seq<string>)
    requires forall i | 0 <= i < |segs| :: Segment(segs[i])
    ensures Segments(root, Join(segs)) == [root] + (if segs != [] && segs[0] == root then segs[1..] else segs)
  {
    PiecesOfSegments(segs);
    StrippedPieces(Join(segs));
  }

  /** The pieces of a path: those of the root, then the remaining segments. */
  lemma PiecesOfPath(root: string, name: string, length: nat)
    requires 1 <= length <= |Segments(root, name)|
    ensures Pieces(PathOf(Segments(root, name), length)) == Pieces(root) + Segments(root, name)[1..length]
  {
    var segs := Segments(root, name);
    SegmentsTail(root, name);
    PiecesOfJoin(segs[..length]);
    assert segs[..length][1..] == segs[1..length];
    OuterSlash(Join(segs[..length]));
  }

  /** Two different segment prefixes never share a key, whatever the root. */
  lemma PathInjective(root: string, a: string, i: nat, b: string, j: nat)
    requires 1 <= i <= |Segments(root, a)| && 1 <= j <= |Segments(root, b)|
    requires PathOf(Segments(root, a), i) == PathOf(Segments(root, b), j)
    ensures i == j && Segments(root, a)[..i] == Segments(root, b)[..j]
  {
    PiecesOfPath(root, a, i);
    PiecesOfPath(root, b, j);
    var x, y, r := Segments(root, a)[1..i], Segments(root, b)[1..j], Pieces(root);
    assert x == (r + x)[|r|..] && y == (r + y)[|r|..];
    assert Segments(root, a)[..i] == [root] + x && Segments(root, b)[..j] == [root] + y;
  }

  /** Splitting a built path gives its segments back exactly when the root has no slash of its own;
      so for such a root canonical paths are fixed points. */
  lemma RoundTripIffSlashFree(root: string, name: string, length: nat)
    requires root != "" && root[0] != '/'
    requires 1 <= length <= |Segments(root, name)|
    ensures Segments(root, PathOf(Segments(root, name), length)) == Segments(root, name)[..length] <==> SlashFree(root)
  {
    var segs := Segments(root, name);
    PiecesOfPath(root, name, length);
    SegmentsOfPieces(root, PathOf(segs, length), segs[1..length]);
    assert segs[..length] == [root] + segs[1..length];
  }

  /** A path whose pieces are those of the root and then `tail`. */
  lemma SegmentsOfPieces(root: string, path: string, tail: seq<string>)
    requires root != "" && root[0] != '/' && Pieces(path) == Pieces(root) + tail
    ensures Segments(root, path) == [root] + tail <==> SlashFree(root)
  {
    StripKeepsPieces(path);
    StripKeepsPieces(StripLeft(path));
    FirstPiece(root);
    PiecesAreSegments(root);
    if SlashFree(root) {
      PiecesOfSegment(root);
      assert (Pieces(root) + tail)[1..] == tail;
    } else {
      assert (Pieces(root) + tail)[0] != root;
      assert Segments(root, path) == [root] + (Pieces(root) + tail);
    }
  }

  lemma FirstPiece(s: string)
    requires s != "" && s[0] != '/'
    ensures Pieces(s) != []
  {
    assert Split(s)[0] != "";
  }

  function Slashes(n: nat): string {
    if n == 0 then "" else "/" + Slashes(n - 1)
  }

  lemma {:induction false} SlashesEnd(n: nat)
    ensures Slashes(n) + "/" == Slashes(n + 1)
  {
    if n == 0 {
      assert Slashes(1) == "/" + Slashes(0);
    } else {
      SlashesEnd(n - 1);
    }
  }

  /** The configured root without the slashes at either end, or the default where nothing is left. */
  lemma RootNameIsStripped(configured: string) returns (before: nat, core: string, after: nat)
    ensures configured == Slashes(before) + core + Slashes(after)
    ensures core != "" ==> core[0] != '/' && core[|core| - 1] != '/'
    ensures RootName(configured) == if core == "" then "Robot" else core
    ensures RootName(configured) != "" && RootName(configured)[0] != '/'
  {
    StripEnds(configured);
    before := LeftSlashes(configured);
    after := RightSlashes(StripLeft(configured));
    core := Strip(configured);
    assert configured == Slashes(before) + (core + Slashes(after));
  }

  lemma {:induction false} LeftSlashes(s: string) returns (n: nat)
    ensures s == Slashes(n) + StripLeft(s)
  {
    if s != "" && s[0] == '/' {
      var k := LeftSlashes(s[1..]);
      n := k + 1;
      assert s == "/" + s[1..] == "/" + (Slashes(k) + StripLeft(s));
    } else {
      n := 0;
    }
  }

  lemma {:induction false} RightSlashes(s: string) returns (n: nat)
    ensures s == StripRight(s) + Slashes(n)
    ensures StripRight(s) != "" ==> StripRight(s)[|StripRight(s)| - 1] != '/'
  {
    if s != "" && s[|s| - 1] == '/' {
      var k := RightSlashes(s[..|s| - 1]);
      n := k + 1;
      SlashesEnd(k);
      assert s == s[..|s| - 1] + "/" == StripRight(s) + (Slashes(k) + "/");
    } else {
      n := 0;
    }
  }

  lemma {:induction false} StripEnds(s: string)
    ensures StripLeft(s) == "" || StripLeft(s)[0] != '/'
    ensures Strip(s) == "" || Strip(s)[0] != '/'
  {
    if s == "" {
    } else {
      if s[0] == '/' { StripEnds(s[1..]); }
      StripRightStart(StripLeft(s));
    }
  }

  lemma {:induction false} StripRightStart(s: string)
    ensures StripRight(s) == "" || (s != "" && StripRight(s)[0] == s[0])
  {
    if s != "" && s[|s| - 1] == '/' {
      StripRightStart(s[..|s| - 1]);
    }
  }

  // ---------------------------------------------------------------- string order

  /** Code-point order, as Python compares strings. */
  predicate Less(a: string, b: string) {
    b != "" && (a == "" || a[0] < b[0] || (a[0] == b[0] && Less(a[1..], b[1..])))
  }

  /** The order: a proper prefix comes first, otherwise the first difference decides. */
  lemma {:induction false} LessMeans(a: string, b: string)
    ensures Less(a, b) <==> exists i: nat :: DecidedAt(a, b, i)
  {
    if b == "" {
    } else if a == "" || a[0] != b[0] {
      assert a[..0] == b[..0];
      if a == "" || a[0] < b[0] {
        assert DecidedAt(a, b, 0);
      }
      forall i: nat | DecidedAt(a, b, i)
        ensures i == 0
      {
        SameStart(a, b, i);
      }
    } else {
      LessMeans(a[1..], b[1..]);
      DecidedBehind(a, b);
    }
  }

  /** The strings agree before place i, where a ends or has the smaller character. */
  predicate DecidedAt(a: string, b: string, i: nat) {
    i <= |a| && i < |b| && a[..i] == b[..i] && (i == |a| || a[i] < b[i])
  }

  lemma SameStart(a: string, b: string, i: nat)
    requires DecidedAt(a, b, i)
    ensures i > 0 ==> a != "" && b != "" && a[0] == b[0]
  {
    if i > 0 {
      assert a[..i][0] == a[0] && b[..i][0] == b[0];
    }
  }

  lemma DecidedBehind(a: string, b: string)
    requires a != "" && b != "" && a[0] == b[0]
    ensures (exists i: nat :: DecidedAt(a, b, i)) <==> exists i: nat :: DecidedAt(a[1..], b[1..], i)
  {
    if i: nat :| DecidedAt(a, b, i) {
      assert a[1..][..i - 1] == a[..i][1..] == b[..i][1..] == b[1..][..i - 1];
      assert DecidedAt(a[1..], b[1..], i - 1);
    }
    if i: nat :| DecidedAt(a[1..], b[1..], i) {
      assert a[..i + 1] == [a[0]] + a[1..][..i] && b[..i + 1] == [b[0]] + b[1..][..i];
      assert DecidedAt(a, b, i + 1);
    }
  }

  lemma {:induction false} LessTotal(a: string, b: string)
    ensures Less(a, b) || a == b || Less(b, a)
    ensures !(Less(a, b) && Less(b, a)) && !Less(a, a)
  {
    if a == "" {
    } else {
      if b != "" {
        LessTotal(a[1..], b[1..]);
        assert a == [a[0]] + a[1..] && b == [b[0]] + b[1..];
      }
      LessTotal(a[1..], a[1..]);
    }
  }

  lemma {:induction false} LessTransitive(a: string, b: string, c: string)
    requires Less(a, b) && Less(b, c)
    ensures Less(a, c)
  {
    if a != "" && a[0] == b[0] == c[0] {
      LessTransitive(a[1..], b[1..], c[1..]);
    }
  }

  ghost predicate StrictlySorted(s: seq<string>) {
    forall i, j | 0 <= i < j < |s| :: Less(s[i], s[j])
  }

  /** sorted() over the keys of a dictionary. */
  method SortKeys(keys: set<string>) returns (sorted: seq<string>)
    ensures StrictlySorted(sorted)
    ensures forall k :: k in sorted <==> k in keys
  {
    sorted := [];
    var todo := keys;
    while todo != {}
      invariant StrictlySorted(sorted) && todo <= keys
      invariant forall k :: k in sorted <==> k in keys - todo
      decreases todo
    {
      var k :| k in todo;
      todo := todo - {k};
      sorted := InsertKey(sorted, k);
    }
  }

  method InsertKey(sorted: seq<string>, k: string) returns (r: seq<string>)
    requires StrictlySorted(sorted) && k !in sorted
    ensures StrictlySorted(r)
    ensures forall x :: x in r <==> x == k || x in sorted
  {
    var i := 0;
    while i < |sorted| && Less(sorted[i], k)
      invariant i <= |sorted| && forall j | 0 <= j < i :: Less(sorted[j], k)
    {
      i := i + 1;
    }
    r := sorted[..i] + [k] + sorted[i..];
    if i < |sorted| {
      LessTotal(sorted[i], k);
    }
    forall j | i < j < |sorted|
      ensures Less(k, sorted[j])
    {
      LessTransitive(k, sorted[i], sorted[j]);
    }
  }
}
