/**
 * Pure string work on slash-separated file paths: Go's `strings.Split` and
 * `strings.Join` on one separator character, `filepath.Dir`, `filepath.Ext`,
 * the extension allow-list of the scanner, the purge selection and the
 * `;`-delimited tag string of the older indexer.
 */
module Paths {
  import opened Wrappers

  type Path = string

  /** `filepath.Separator` on the Unix systems the tool runs on. */
  const Separator: char := '/'

  predicate IsPrefix(p: string, s: string) {
    |p| <= |s| && s[..|p|] == p
  }

  predicate IsSuffix(p: string, s: string) {
    |p| <= |s| && s[|s| - |p|..] == p
  }

  // ---------------------------------------------------------------------------
  // strings.Split / strings.Join on a single-character separator
  // ---------------------------------------------------------------------------

  /** `strings.Split(s, string(c))`: the pieces between occurrences of `c`. */
  function Split(s: string, c: char): (r: seq<string>)
    ensures |r| >= 1
    ensures forall i :: 0 <= i < |r| ==> c !in r[i]
    decreases |s|
  {
    if |s| == 0 then [""]
    else
      var rest := Split(s[1..], c);
      if s[0] == c then [""] + rest
      else [[s[0]] + rest[0]] + rest[1..]
  }

  /** `strings.Join(parts, string(c))`. */
  function Join(parts: seq<string>, c: char): string
    decreases |parts|
  {
    if |parts| == 0 then ""
    else if |parts| == 1 then parts[0]
    else parts[0] + [c] + Join(parts[1..], c)
  }

  /** Joining the pieces of a split gives back the string. */
  lemma {:induction false} JoinSplit(s: string, c: char)
    ensures Join(Split(s, c), c) == s
    decreases |s|
  {
    if |s| > 0 {
      var rest := Split(s[1..], c);
      JoinSplit(s[1..], c);
      if s[0] == c {
        assert ([""] + rest)[1..] == rest;
        assert s == [c] + s[1..];
      } else {
        var parts := [[s[0]] + rest[0]] + rest[1..];
        assert parts == Split(s, c);
        if |rest| == 1 {
          assert s == [s[0]] + s[1..];
        } else {
          assert parts[1..] == rest[1..];
          assert Join(rest, c) == rest[0] + [c] + Join(rest[1..], c);
          assert s == [s[0]] + s[1..];
        }
      }
    }
  }

  /** A string without the separator splits into itself alone. */
  lemma {:induction false} SplitNoSeparator(x: string, c: char)
    requires c !in x
    ensures Split(x, c) == [x]
    decreases |x|
  {
    if |x| > 0 {
      SplitNoSeparator(x[1..], c);
      assert [x[0]] + x[1..] == x;
    }
  }

  /** Splitting `x + c + rest`, with no `c` in `x`, yields `x` and then the pieces of `rest`. */
  lemma {:induction false} SplitAfterPiece(x: string, c: char, rest: string)
    requires c !in x
    ensures Split(x + [c] + rest, c) == [x] + Split(rest, c)
    decreases |x|
  {
    var s := x + [c] + rest;
    if |x| == 0 {
      assert s[1..] == rest;
    } else {
      assert s[1..] == x[1..] + [c] + rest;
      SplitAfterPiece(x[1..], c, rest);
      assert [x[0]] + x[1..] == x;
    }
  }

  /** Splitting at one occurrence of the separator splits each side independently. */
  lemma {:induction false} SplitConcat(a: string, c: char, b: string)
    ensures Split(a + [c] + b, c) == Split(a, c) + Split(b, c)
    decreases |a|
  {
    var s := a + [c] + b;
    if |a| == 0 {
      assert s[1..] == b;
    } else {
      assert s[1..] == a[1..] + [c] + b;
      SplitConcat(a[1..], c, b);
    }
  }

  /** Splitting a join gives back the pieces when no piece holds the separator. */
  lemma {:induction false} SplitJoin(parts: seq<string>, c: char)
    requires |parts| >= 1
    requires forall i :: 0 <= i < |parts| ==> c !in parts[i]
    ensures Split(Join(parts, c), c) == parts
    decreases |parts|
  {
    if |parts| == 1 {
      SplitNoSeparator(parts[0], c);
    } else {
      SplitJoin(parts[1..], c);
      SplitAfterPiece(parts[0], c, Join(parts[1..], c));
      assert [parts[0]] + parts[1..] == parts;
    }
  }

  /** The first piece is empty exactly when the string is empty or starts with the separator. */
  lemma FirstPieceEmpty(s: string, c: char)
    ensures Split(s, c)[0] == "" <==> (|s| == 0 || s[0] == c)
  {
  }

  // ---------------------------------------------------------------------------
  // The JSON path-segment list of pkg/index.go
  // ---------------------------------------------------------------------------

  predicate IsAbsolute(p: Path) {
    |p| > 0 && p[0] == Separator
  }

  /**
   * The segment list stored as a record's JSON path: the path split on the
   * separator, with the first element dropped only when it is empty.
   */
  function PathSegments(p: Path): (r: seq<string>)
    ensures forall i :: 0 <= i < |r| ==> Separator !in r[i]
  {
    var parts := Split(p, Separator);
    if parts[0] == "" then parts[1..] else parts
  }

  /**
   * The segments determine the path: re-joining them (after a leading
   * separator for an absolute path) gives the path back, and only the very
   * first piece of the split is ever dropped.
   */
  lemma {:induction false} PathSegmentsRoundTrip(p: Path)
    ensures |p| == 0 ==> PathSegments(p) == []
    ensures IsAbsolute(p) ==> PathSegments(p) == Split(p, Separator)[1..]
    ensures |p| > 0 && !IsAbsolute(p) ==> PathSegments(p) == Split(p, Separator)
    ensures p == (if IsAbsolute(p) then [Separator] else "") + Join(PathSegments(p), Separator)
  {
    FirstPieceEmpty(p, Separator);
    if IsAbsolute(p) {
      JoinSplit(p[1..], Separator);
      assert Split(p, Separator)[1..] == Split(p[1..], Separator);
      assert p == [Separator] + p[1..];
    } else if |p| > 0 {
      JoinSplit(p, Separator);
    }
  }

  // ---------------------------------------------------------------------------
  // filepath.Dir and filepath.Ext
  // ---------------------------------------------------------------------------

  /** The index of the last occurrence of `c` in `s`, if any. */
  function LastIndex(s: string, c: char): (r: Option<nat>)
    ensures r.None? ==> c !in s
    ensures r.Some? ==> r.value < |s| && s[r.value] == c && c !in s[r.value + 1..]
    decreases |s|
  {
    if |s| == 0 then None
    else if s[|s| - 1] == c then Some(|s| - 1)
    else
      var r := LastIndex(s[..|s| - 1], c);
      assert s == s[..|s| - 1] + [s[|s| - 1]];
      if r.Some? then
        assert s[r.value + 1..] == s[..|s| - 1][r.value + 1..] + [s[|s| - 1]];
        r
      else r
  }

  /** `s` with every trailing separator removed. */
  function TrimTrailingSeparators(s: string): (r: string)
    ensures IsPrefix(r, s)
    ensures r == "" || r[|r| - 1] != Separator
    ensures forall k :: |r| <= k < |s| ==> s[k] == Separator
    decreases |s|
  {
    if |s| > 0 && s[|s| - 1] == Separator then TrimTrailingSeparators(s[..|s| - 1]) else s
  }

  /**
   * `filepath.Dir`: everything up to the last separator, without trailing
   * separators; "." when there is no separator and "/" when only separators
   * precede the last element.
   */
  function Dir(p: Path): (r: Path)
    ensures |r| > 0
    ensures Separator !in p ==> r == "."
    ensures r == "/" || r[|r| - 1] != Separator
    ensures Separator in p && r != "/" ==> IsPrefix(r + [Separator], p)
  {
    match LastIndex(p, Separator)
    case None => "."
    case Some(i) =>
      var d := TrimTrailingSeparators(p[..i + 1]);
      if d == "" then "/"
      else
        assert p[|d|] == Separator;
        assert p[..|d| + 1] == d + [Separator];
        d
  }

  /** The last `c` of `pre + [c] + name` is the one after `pre` when `name` holds no `c`. */
  lemma {:induction false} LastIndexBeforeName(pre: string, c: char, name: string)
    requires c !in name
    ensures LastIndex(pre + [c] + name, c) == Some(|pre|)
    decreases |name|
  {
    var s := pre + [c] + name;
    if |name| > 0 {
      var init := name[..|name| - 1];
      assert s[..|s| - 1] == pre + [c] + init;
      assert s[|s| - 1] == name[|name| - 1];
      LastIndexBeforeName(pre, c, init);
    }
  }

  /**
   * `Dir` undoes joining a directory and a file name: the directory of
   * `d/name` is `d`, and the directory of `/name` is the root.
   */
  lemma DirOfJoin(d: Path, name: string)
    requires d == "" || d[|d| - 1] != Separator
    requires Separator !in name
    ensures Dir(d + [Separator] + name) == if d == "" then "/" else d
  {
    var p := d + [Separator] + name;
    LastIndexBeforeName(d, Separator, name);
    assert p[..|d| + 1] == d + [Separator];
    assert (d + [Separator])[..|d|] == d;
  }

  /**
   * `filepath.Ext`: the suffix of the last path element that starts at its
   * last dot, or "" when that element has no dot.
   */
  function Ext(p: Path): (r: string)
    ensures IsSuffix(r, p)
    ensures r == "" || (r[0] == '.' && '.' !in r[1..] && Separator !in r)
    decreases |p|
  {
    if |p| == 0 then ""
    else
      var c := p[|p| - 1];
      if c == Separator then ""
      else if c == '.' then "."
      else
        var e := Ext(p[..|p| - 1]);
        if e == "" then ""
        else
          assert (e + [c])[1..] == e[1..] + [c];
          e + [c]
  }

  /** The extension of a name ending in a dot and a dot-free, separator-free word is that dot and word. */
  lemma {:induction false} ExtOfSuffix(base: string, word: string)
    requires '.' !in word && Separator !in word
    ensures Ext(base + ['.'] + word) == ['.'] + word
    decreases |word|
  {
    var p := base + ['.'] + word;
    if |word| > 0 {
      var w := word[..|word| - 1];
      assert p[..|p| - 1] == base + ['.'] + w;
      ExtOfSuffix(base, w);
      assert ['.'] + w + [word[|word| - 1]] == ['.'] + word;
    } else {
      assert p[|p| - 1] == '.';
    }
  }

  // ---------------------------------------------------------------------------
  // The extension allow-list of the scanner
  // ---------------------------------------------------------------------------

  /** ASCII lower-casing of one character. */
  function LowerChar(ch: char): char {
    if 'A' <= ch <= 'Z' then (ch as int - 'A' as int + 'a' as int) as char else ch
  }

  /** Lower-casing neither makes nor unmakes a dot or a separator. */
  lemma LowerCharKeeps(ch: char)
    ensures LowerChar(ch) == '.' <==> ch == '.'
    ensures LowerChar(ch) == Separator <==> ch == Separator
  {
  }

  /** `strings.ToLower`, restricted to ASCII letters. */
  function Lower(s: string): (r: string)
    ensures |r| == |s|
  {
    seq(|s|, i requires 0 <= i < |s| => LowerChar(s[i]))
  }

  /** The case-insensitive extensions the scanner indexes. */
  const AllowedExtensions: set<string> := {".heic", ".jpg"}

  /** A walked path is a candidate when its lower-cased extension is allowed. */
  predicate IsCandidate(p: Path) {
    Lower(Ext(p)) in AllowedExtensions
  }

  /**
   * Candidates are exactly the paths whose last element ends in ".jpg" or
   * ".heic", in any letter case.
   */
  lemma CandidateIff(p: Path)
    ensures IsCandidate(p) <==>
      (|p| >= 4 && Lower(p[|p| - 4..]) == ".jpg") || (|p| >= 5 && Lower(p[|p| - 5..]) == ".heic")
  {
    if IsCandidate(p) {
      CandidateHasSuffix(p);
    }
    if |p| >= 4 && Lower(p[|p| - 4..]) == ".jpg" {
      LowerSuffixChars(p, 3, ".jpg");
      AllowedSuffixIsExt(p, 3);
    } else if |p| >= 5 && Lower(p[|p| - 5..]) == ".heic" {
      LowerSuffixChars(p, 4, ".heic");
      AllowedSuffixIsExt(p, 4);
    }
  }

  /** A candidate's extension is its last four or five characters. */
  lemma CandidateHasSuffix(p: Path)
    requires IsCandidate(p)
    ensures (|p| >= 4 && Lower(p[|p| - 4..]) == ".jpg") || (|p| >= 5 && Lower(p[|p| - 5..]) == ".heic")
  {
    var e := Ext(p);
    assert p[|p| - |e|..] == e;
    assert |Lower(e)| == |e|;
  }

  /** Lower-casing a suffix to a dot and letters fixes each of its characters' lower case. */
  lemma LowerSuffixChars(p: Path, n: nat, ext: string)
    requires |p| >= n + 1 && |ext| == n + 1
    requires Lower(p[|p| - n - 1..]) == ext
    requires ext[0] == '.' && forall k :: 1 <= k <= n ==> ext[k] != '.' && ext[k] != Separator
    ensures LowerChar(p[|p| - n - 1]) == '.'
    ensures forall k :: |p| - n <= k < |p| ==> LowerChar(p[k]) != '.' && LowerChar(p[k]) != Separator
  {
    var s := p[|p| - n - 1..];
    assert Lower(s)[0] == LowerChar(p[|p| - n - 1]);
    forall k | |p| - n <= k < |p| ensures LowerChar(p[k]) != '.' && LowerChar(p[k]) != Separator {
      assert Lower(s)[k - (|p| - n - 1)] == LowerChar(p[k]);
    }
  }

  /** A dot followed by `n` characters that are neither dots nor separators (in any case) is the extension. */
  lemma AllowedSuffixIsExt(p: Path, n: nat)
    requires |p| >= n + 1
    requires LowerChar(p[|p| - n - 1]) == '.'
    requires forall k :: |p| - n <= k < |p| ==> LowerChar(p[k]) != '.' && LowerChar(p[k]) != Separator
    ensures Ext(p) == p[|p| - n - 1..]
  {
    var w := p[|p| - n..];
    LowerCharKeeps(p[|p| - n - 1]);
    assert '.' !in w && Separator !in w by {
      forall k | 0 <= k < n ensures w[k] != '.' && w[k] != Separator {
        assert w[k] == p[|p| - n + k];
        LowerCharKeeps(w[k]);
      }
    }
    assert p == p[..|p| - n - 1] + ['.'] + w;
    ExtOfSuffix(p[..|p| - n - 1], w);
  }

  // ---------------------------------------------------------------------------
  // The purge selection
  // ---------------------------------------------------------------------------

  /**
   * The purge query selects records whose directory, with a separator
   * appended, starts with the scanned root followed by a separator.
   */
  predicate UnderRoot(dir: Path, root: Path) {
    IsPrefix(root + [Separator], dir + [Separator])
  }

  // ---------------------------------------------------------------------------
  // The tag string of the older indexer
  // ---------------------------------------------------------------------------

  const TagSeparator: char := ';'

  /** The `;`-delimited tag column: a separator, the tags joined by separators, a separator. */
  function TagString(tags: seq<string>): (r: string)
    ensures |r| >= 2 && r[0] == TagSeparator && r[|r| - 1] == TagSeparator
  {
    [TagSeparator] + Join(tags, TagSeparator) + [TagSeparator]
  }

  /**
   * When no tag holds the separator, splitting the tag string gives back the
   * tags between an empty first and an empty last piece.
   */
  lemma {:induction false} TagStringRoundTrip(tags: seq<string>)
    requires |tags| >= 1
    requires forall i :: 0 <= i < |tags| ==> TagSeparator !in tags[i]
    ensures Split(TagString(tags), TagSeparator) == [""] + tags + [""]
  {
    var j := Join(tags, TagSeparator);
    var parts := [""] + tags + [""];
    assert forall i :: 0 <= i < |parts| ==> TagSeparator !in parts[i];
    JoinAppendEmpty(tags, TagSeparator);
    assert Join(parts, TagSeparator) == TagString(tags) by {
      assert parts[1..] == tags + [""];
      assert Join(parts, TagSeparator) == "" + [TagSeparator] + Join(tags + [""], TagSeparator);
    }
    SplitJoin(parts, TagSeparator);
  }

  /** Appending an empty piece appends one separator to the join. */
  lemma {:induction false} JoinAppendEmpty(parts: seq<string>, c: char)
    requires |parts| >= 1
    ensures Join(parts + [""], c) == Join(parts, c) + [c]
    decreases |parts|
  {
    if |parts| > 1 {
      assert (parts + [""])[1..] == parts[1..] + [""];
      JoinAppendEmpty(parts[1..], c);
    }
  }

  /** `w` occurs in `t` at offset `k`. */
  predicate OccursAt(w: string, t: string, k: int) {
    0 <= k && k + |w| <= |t| && t[k..k + |w|] == w
  }

  /** An occurrence in `t` is an occurrence in any string ending in `t`, shifted by the prefix. */
  lemma OccursShift(w: string, pre: string, t: string, k: int)
    requires OccursAt(w, t, k)
    ensures OccursAt(w, pre + t, |pre| + k)
  {
    assert (pre + t)[|pre| + k..|pre| + k + |w|] == t[k..k + |w|];
  }

  /** The tag string of two or more tags: the first tag, then the tag string of the rest. */
  lemma TagStringCons(tags: seq<string>)
    requires |tags| > 1
    ensures TagString(tags) == [TagSeparator] + tags[0] + TagString(tags[1..])
  {
  }

  /** Each tag appears in the tag string enclosed by separators, as a `%;tag;%` query expects. */
  lemma {:induction false} TagStringContains(tags: seq<string>, i: nat)
    requires i < |tags|
    ensures exists k :: OccursAt([TagSeparator] + tags[i] + [TagSeparator], TagString(tags), k)
    decreases i
  {
    var w := [TagSeparator] + tags[i] + [TagSeparator];
    if i == 0 {
      if |tags| == 1 {
        assert OccursAt(w, TagString(tags), 0);
      } else {
        TagStringCons(tags);
        assert TagString(tags)[..|w|] == w;
        assert OccursAt(w, TagString(tags), 0);
      }
    } else {
      TagStringContains(tags[1..], i - 1);
      assert tags[1..][i - 1] == tags[i];
      var k :| OccursAt(w, TagString(tags[1..]), k);
      TagStringCons(tags);
      OccursShift(w, [TagSeparator] + tags[0], TagString(tags[1..]), k);
    }
  }
}
