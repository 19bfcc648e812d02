/** String helpers of the base library (src/base/StringUtils.cpp): prefix and
    suffix tests, path splitting into directory, file name and extension, and
    splitting on a delimiter. Strings are sequences of characters; the
    `std::string` searches they use (`find_last_of`, `find`) are written out
    as functions with their own contracts. */
module StringUtils {

  const Separators: set<char> := {'/', '\\'}
  const Dot: set<char> := {'.'}

  /** std::string::find_last_of: the index of the last character of `s` that
      is in `cs`, or -1 for npos. */
  function FindLastOf(s: string, cs: set<char>): (i: int)
    ensures -1 <= i < |s|
    ensures i >= 0 ==> s[i] in cs
    ensures forall j :: i < j < |s| ==> s[j] !in cs
  {
    if s == [] then -1
    else if s[|s| - 1] in cs then |s| - 1
    else FindLastOf(s[..|s| - 1], cs)
  }

  /** `k` is the position of the last character of `s` drawn from `cs`. */
  predicate LastOfAt(s: string, cs: set<char>, k: int)
  {
    0 <= k < |s| && s[k] in cs && forall j :: k < j < |s| ==> s[j] !in cs
  }

  /** StringUtils::StartsWith. */
  function StartsWith(s: string, sub: string): (r: bool)
    ensures r <==> sub <= s
  {
    if sub == [] then true
    else if s == [] then false
    else if |s| < |sub| then false
    else s[..|sub|] == sub
  }

  /** StringUtils::EndsWith: the comparison starts at `len - sLen`. */
  function EndsWith(s: string, sub: string): (r: bool)
    ensures r <==> exists i | 0 <= i <= |s| :: s[i..] == sub
  {
    if sub == [] then (assert s[|s|..] == sub; true)
    else if s == [] then false
    else if |s| < |sub| then false
    else
      var b := s[|s| - |sub|..] == sub;
      assert b ==> s[|s| - |sub|..] == sub;
      b
  }

  /** StringUtils::FilePath: the text before the last '/' or '\', or "./" when
      the path has no separator. */
  function FilePath(path: string): (r: string)
    ensures (forall i :: 0 <= i < |path| ==> path[i] !in Separators) ==> r == "./"
    ensures forall k :: LastOfAt(path, Separators, k) ==> r == path[..k] && path == r + [path[k]] + path[k + 1..]
  {
    var pos := FindLastOf(path, Separators);
    if pos != -1 then path[..pos] else "./"
  }

  /** StringUtils::FileNameExt: the text after the last separator, or the whole
      path when there is none or it is the final character. */
  function FileNameExt(path: string): (r: string)
    ensures (forall i :: 0 <= i < |path| ==> path[i] !in Separators) ==> r == path
    ensures forall k :: LastOfAt(path, Separators, k) ==>
      r == (if k + 1 < |path| then path[k + 1..] else path)
    ensures r <= path || (forall i :: 0 <= i < |r| ==> r[i] !in Separators)
  {
    var pos := FindLastOf(path, Separators);
    if pos != -1 && pos + 1 < |path| then path[pos + 1..] else path
  }

  /** StringUtils::FileName as written: the file-name part is cut at the index
      of the last '.' of the WHOLE path (std::string::substr clips a count that
      runs past the end). */
  function FileName(path: string): (r: string)
    ensures r <= FileNameExt(path)
    ensures var pos := FindLastOf(path, Dot);
      r == (if pos > 0 then FileNameExt(path)[..Min(pos, |FileNameExt(path)|)] else FileNameExt(path))
  {
    var fileName := FileNameExt(path);
    var pos := FindLastOf(path, Dot);
    if pos != -1 && pos != 0 then fileName[..Min(pos, |fileName|)] else fileName
  }

  function Min(a: int, b: int): int { if a < b then a else b }

  /** Without a directory part FileName strips the extension: the result is
      the text before the last '.'. */
  lemma FileNameWithoutDirectory(path: string, k: int)
    requires forall i :: 0 <= i < |path| ==> path[i] !in Separators
    requires LastOfAt(path, Dot, k) && k > 0
    ensures FileName(path) == path[..k]
  {
    assert FindLastOf(path, Dot) == k;
  }

  /** The position at which FileName cuts is taken from the whole path, so a
      directory prefix shifts it: "a/b.txt" gives "b.t" rather than "b". */
  lemma FileNameCutsAtPathIndex()
    ensures FileName("a/b.txt") == "b.t"
  {
    assert LastOfAt("a/b.txt", Separators, 1);
    assert FileNameExt("a/b.txt") == "b.txt";
    assert LastOfAt("a/b.txt", Dot, 3);
  }

  /** FileName with the index taken from the file-name part, which is what its
      purpose (the file name without extension) calls for. */
  function FileNameIntended(path: string): (r: string)
    ensures r <= FileNameExt(path)
    ensures forall k :: LastOfAt(FileNameExt(path), Dot, k) && k > 0 ==> r == FileNameExt(path)[..k]
    ensures (forall i :: 0 <= i < |FileNameExt(path)| ==> FileNameExt(path)[i] != '.') ==> r == FileNameExt(path)
  {
    var fileName := FileNameExt(path);
    var pos := FindLastOf(fileName, Dot);
    if pos > 0 then fileName[..pos] else fileName
  }

  /** There is only one last position. */
  lemma LastOfAtUnique(s: string, cs: set<char>, k: int)
    requires LastOfAt(s, cs, k)
    ensures k == FindLastOf(s, cs)
  {
  }

  /** StringUtils::Extension: the text after the last '.' of the file-name part;
      empty when there is no dot, the dot is first, or the dot is last. */
  function Extension(path: string): (r: string)
    ensures var fn := FileNameExt(path);
      && (r == [] <==> forall k :: LastOfAt(fn, Dot, k) ==> k == 0 || k == |fn| - 1)
      && (r != [] ==> '.' !in r && |r| + 1 < |fn| && fn == fn[..|fn| - |r| - 1] + ['.'] + r)
  {
    var fileName := FileNameExt(path);
    var pos := FindLastOf(fileName, Dot);
    LastDotIsTheOne(fileName, pos);
    if pos != -1 && pos != 0 && pos + 1 < |fileName| then
      fileName[pos + 1..]
    else []
  }

  /** What Extension needs of the last dot at `pos`: it is the only last
      dot, and the text splits around it. */
  lemma LastDotIsTheOne(fn: string, pos: int)
    requires pos == FindLastOf(fn, Dot)
    ensures forall k :: LastOfAt(fn, Dot, k) ==> k == pos
    ensures 0 <= pos ==> LastOfAt(fn, Dot, pos) && '.' !in fn[pos + 1..]
    ensures 0 <= pos ==> fn == fn[..pos] + ['.'] + fn[pos + 1..]
  {
    forall k | LastOfAt(fn, Dot, k) ensures k == pos { LastOfAtUnique(fn, Dot, k); }
    if 0 <= pos {
      assert fn == fn[..pos] + [fn[pos]] + fn[pos + 1..];
    }
  }

  /** `d` occurs in `s` starting at index `j`. */
  predicate OccursAt(s: string, d: string, j: int)
  {
    0 <= j && j + |d| <= |s| && s[j..j + |d|] == d
  }

  predicate Contains(s: string, d: string)
  {
    exists j | 0 <= j <= |s| :: OccursAt(s, d, j)
  }

  /** std::string::find(d, from): the first occurrence of `d` at or after
      `from`, or -1 for npos. */
  function Find(s: string, d: string, from: nat): (i: int)
    requires d != []
    ensures i == -1 || (from <= i && OccursAt(s, d, i))
    decreases |s| - from
  {
    if from + |d| > |s| then -1
    else if s[from..from + |d|] == d then from
    else Find(s, d, from + 1)
  }

  /** Find returns the FIRST occurrence: none starts between `from` and it. */
  lemma {:induction false} FindIsFirst(s: string, d: string, from: nat)
    requires d != []
    ensures var i := Find(s, d, from);
      forall j :: from <= j && (i == -1 || j < i) ==> !OccursAt(s, d, j)
    decreases |s| - from
  {
    if from + |d| <= |s| && s[from..from + |d|] != d {
      FindIsFirst(s, d, from + 1);
    }
  }

  /** The pieces the split loop collects from index `last` on. */
  function SplitFrom(s: string, d: string, last: nat): seq<string>
    requires d != [] && last <= |s|
    decreases |s| - last
  {
    var next := Find(s, d, last);
    if next == -1 then (if last < |s| then [s[last..]] else [])
    else if next > last then [s[last..next]] + SplitFrom(s, d, next + |d|)
    else SplitFrom(s, d, next + |d|)
  }

  /** The result of StringUtils::SplitString. */
  function Split(s: string, d: string): seq<string>
  {
    if d == [] then [] else SplitFrom(s, d, 0)
  }

  /** StringUtils::SplitString: scan for the delimiter from `last`, keep the
      non-empty text before each occurrence, then the non-empty tail. */
  method SplitString(s: string, delimiter: string) returns (result: seq<string>)
    ensures result == Split(s, delimiter)
    ensures delimiter == [] ==> result == []
  {
    if delimiter == [] {
      return [];
    }
    ghost var whole := SplitFrom(s, delimiter, 0);
    result := [];
    var last: nat := 0;
    var next := Find(s, delimiter, last);
    while next != -1
      invariant last <= |s|
      invariant next == Find(s, delimiter, last)
      invariant result + SplitFrom(s, delimiter, last) == whole
      decreases |s| - last
    {
      ghost var collected, from := result, last;
      SplitFromNext(s, delimiter, last);
      if next > last {
        result := result + [s[last..next]];
      }
      last := next + |delimiter|;
      SplitFromStep(s, delimiter, from, next, last, collected, result, whole);
      next := Find(s, delimiter, last);
    }
    SplitFromEnd(s, delimiter, last, result, whole);
    if last < |s| {
      result := result + [s[last..]];
    }
  }

  /** The occurrence found from `last` lies within `s` at or after `last`. */
  lemma SplitFromNext(s: string, d: string, last: nat)
    requires d != [] && Find(s, d, last) != -1
    ensures last <= Find(s, d, last) && Find(s, d, last) + |d| <= |s|
  {
  }

  /** One round of the split loop: the pieces collected before the round,
      then the piece before the occurrence `next` found from `last` if it is
      not empty, then the pieces after that occurrence, make up the whole
      split. */
  lemma SplitFromStep(s: string, d: string, last: nat, next: int, after: nat,
                      collected: seq<string>, result: seq<string>, whole: seq<string>)
    requires d != [] && last <= |s| && next == Find(s, d, last) && next != -1 && after == next + |d|
    requires collected + SplitFrom(s, d, last) == whole
    requires result == if next > last then collected + [s[last..next]] else collected
    ensures result + SplitFrom(s, d, after) == whole
  {
    var rest := SplitFrom(s, d, after);
    if next > last {
      assert SplitFrom(s, d, last) == [s[last..next]] + rest;
      assert collected + ([s[last..next]] + rest) == (collected + [s[last..next]]) + rest;
    } else {
      assert SplitFrom(s, d, last) == rest;
    }
  }

  /** The split loop's end: with no further occurrence, the non-empty tail,
      if any, completes the split. */
  lemma SplitFromEnd(s: string, d: string, last: nat, collected: seq<string>, whole: seq<string>)
    requires d != [] && last <= |s| && Find(s, d, last) == -1
    requires collected + SplitFrom(s, d, last) == whole
    ensures (if last < |s| then collected + [s[last..]] else collected) == whole
  {
    if last >= |s| {
      assert collected + [] == collected;
    }
  }

  /** Every piece is non-empty and free of the delimiter. */
  lemma {:induction false} SplitFromPiecesClean(s: string, d: string, last: nat)
    requires d != [] && last <= |s|
    ensures forall p :: p in SplitFrom(s, d, last) ==> p != [] && !Contains(p, d)
    decreases |s| - last
  {
    var next := Find(s, d, last);
    FindIsFirst(s, d, last);
    if next == -1 {
      if last < |s| {
        PieceClean(s, d, last, |s|);
        assert s[last..] == s[last..|s|];
      }
    } else {
      if next > last {
        PieceClean(s, d, last, next);
      }
      SplitFromPiecesClean(s, d, next + |d|);
    }
  }

  /** A slice with no occurrence of `d` starting inside it contains none. */
  lemma PieceClean(s: string, d: string, lo: nat, hi: nat)
    requires d != [] && lo <= hi <= |s|
    requires forall j :: lo <= j < hi ==> !OccursAt(s, d, j)
    ensures !Contains(s[lo..hi], d)
  {
    if Contains(s[lo..hi], d) {
      var j :| 0 <= j <= hi - lo && OccursAt(s[lo..hi], d, j);
      assert j + |d| <= hi - lo;
      assert s[lo..hi][j..j + |d|] == d;
      assert s[lo + j..lo + j + |d|] == d by {
        forall t | 0 <= t < |d| ensures s[lo + j + t] == d[t] {
          assert s[lo..hi][j..j + |d|][t] == d[t];
        }
      }
      assert OccursAt(s, d, lo + j);
    }
  }

  lemma SplitPiecesClean(s: string, d: string)
    ensures forall p :: p in Split(s, d) ==> p != [] && !Contains(p, d)
  {
    if d != [] {
      SplitFromPiecesClean(s, d, 0);
    }
  }

  /** The pieces joined back with a separator between them. */
  function Join(ps: seq<string>, sep: string): string
  {
    if ps == [] then [] else if |ps| == 1 then ps[0] else ps[0] + sep + Join(ps[1..], sep)
  }

  /** Searching past a prefix is searching the rest, shifted. */
  lemma {:induction false} FindShift(x: string, y: string, d: string, k: nat)
    requires d != []
    ensures Find(x + y, d, |x| + k) == (if Find(y, d, k) == -1 then -1 else |x| + Find(y, d, k))
    decreases |y| - k
  {
    if k + |d| <= |y| && y[k..k + |d|] != d {
      FindShift(x, y, d, k + 1);
      FindShiftStep(x, y, d, k);
    } else {
      FindShiftStop(x, y, d, k);
    }
  }

  /** Where the search stops at once, it stops at the same place in `y` and
      in `x + y`. */
  lemma FindShiftStop(x: string, y: string, d: string, k: nat)
    requires d != [] && (k + |d| <= |y| ==> y[k..k + |d|] == d)
    ensures Find(x + y, d, |x| + k) == (if Find(y, d, k) == -1 then -1 else |x| + Find(y, d, k))
  {
    if k + |d| <= |y| {
      ShiftedSlice(x, y, k, k + |d|);
    }
  }

  /** Where the search goes on, it goes on in both. */
  lemma FindShiftStep(x: string, y: string, d: string, k: nat)
    requires d != [] && k + |d| <= |y| && y[k..k + |d|] != d
    requires Find(x + y, d, |x| + k + 1) == (if Find(y, d, k + 1) == -1 then -1 else |x| + Find(y, d, k + 1))
    ensures Find(x + y, d, |x| + k) == (if Find(y, d, k) == -1 then -1 else |x| + Find(y, d, k))
  {
    ShiftedSlice(x, y, k, k + |d|);
    assert Find(y, d, k) == Find(y, d, k + 1);
    assert Find(x + y, d, |x| + k) == Find(x + y, d, |x| + k + 1);
  }

  lemma {:induction false} SplitFromShift(x: string, y: string, d: string, k: nat)
    requires d != [] && k <= |y|
    ensures SplitFrom(x + y, d, |x| + k) == SplitFrom(y, d, k)
    decreases |y| - k
  {
    FindShift(x, y, d, k);
    var next := Find(y, d, k);
    if next == -1 {
      SplitFromShiftTail(x, y, d, k);
    } else {
      SplitFromShift(x, y, d, next + |d|);
      SplitFromShiftPiece(x, y, d, k, next);
    }
  }

  lemma SplitFromShiftTail(x: string, y: string, d: string, k: nat)
    requires d != [] && k <= |y|
    requires Find(y, d, k) == -1 && Find(x + y, d, |x| + k) == -1
    ensures SplitFrom(x + y, d, |x| + k) == SplitFrom(y, d, k)
  {
    if k < |y| {
      ShiftedSlice(x, y, k, |y|);
      assert (x + y)[|x| + k..] == (x + y)[|x| + k..|x + y|];
      assert y[k..] == y[k..|y|];
    }
  }

  lemma SplitFromShiftPiece(x: string, y: string, d: string, k: nat, next: nat)
    requires d != [] && k <= next && next + |d| <= |y|
    requires Find(y, d, k) == next && Find(x + y, d, |x| + k) == |x| + next
    requires SplitFrom(x + y, d, |x| + next + |d|) == SplitFrom(y, d, next + |d|)
    ensures SplitFrom(x + y, d, |x| + k) == SplitFrom(y, d, k)
  {
    if next > k {
      ShiftedSlice(x, y, k, next);
    }
  }

  /** A slice of `y` is the same slice of `x + y`, shifted by `|x|`. */
  lemma ShiftedSlice(x: string, y: string, lo: nat, hi: nat)
    requires lo <= hi <= |y|
    ensures (x + y)[|x| + lo..|x| + hi] == y[lo..hi]
  {
  }

  /** A piece without `c` holds no occurrence of [c]. */
  lemma NoOccurrence(p: string, c: char)
    requires c !in p
    ensures forall j :: 0 <= j < |p| ==> !OccursAt(p, [c], j)
  {
    forall j | 0 <= j < |p|
      ensures !OccursAt(p, [c], j)
    {
      assert p[j] in p;
      assert p[j..j + 1] == [p[j]];
    }
  }

  /** A non-empty piece without `c` splits into itself. */
  lemma SplitSingle(p: string, c: char)
    requires p != [] && c !in p
    ensures Split(p, [c]) == [p]
  {
    NoOccurrence(p, c);
    FindIsFirst(p, [c], 0);
    assert Find(p, [c], 0) == -1;
    assert p[0..] == p;
  }

  /** Before the first `c` of `p + [c] + tail` stands the piece `p`. */
  lemma SplitFirstPiece(p: string, c: char, tail: string)
    requires p != [] && c !in p
    ensures SplitFrom(p + [c] + tail, [c], 0) == [p] + SplitFrom(tail, [c], 0)
  {
    var s := p + [c] + tail;
    NoOccurrence(p, c);
    assert OccursAt(s, [c], |p|) by {
      assert s[|p|..|p| + 1] == [c];
    }
    forall j | 0 <= j < |p|
      ensures !OccursAt(s, [c], j)
    {
      assert s[j..j + 1] == p[j..j + 1];
      assert !OccursAt(p, [c], j);
    }
    FindIsFirst(s, [c], 0);
    assert Find(s, [c], 0) == |p|;
    assert s[0..|p|] == p;
    assert SplitFrom(s, [c], 0) == [p] + SplitFrom(s, [c], |p| + 1);
    assert s == (p + [c]) + tail;
    SplitFromShift(p + [c], tail, [c], 0);
  }

  /** Splitting on a one-character delimiter undoes joining on it, for pieces
      that are non-empty and do not contain that character. */
  lemma {:induction false} SplitJoin(ps: seq<string>, c: char)
    requires forall p :: p in ps ==> p != [] && c !in p
    ensures Split(Join(ps, [c]), [c]) == ps
  {
    if ps == [] {
    } else if |ps| == 1 {
      assert ps[0] in ps;
      SplitSingle(ps[0], c);
    } else {
      assert ps[0] in ps;
      assert forall q :: q in ps[1..] ==> q in ps;
      assert Join(ps, [c]) == ps[0] + [c] + Join(ps[1..], [c]);
      SplitFirstPiece(ps[0], c, Join(ps[1..], [c]));
      SplitJoin(ps[1..], c);
      assert ps == [ps[0]] + ps[1..];
    }
  }
}
