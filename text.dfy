/**
 * String helpers shared by the scraper and the command line: Python's
 * `str.split(sep)` and `sep.join(parts)`, and SQLite's BINARY text order.
 */
module Text {
  import opened Wrappers

  /** `pat` occurs in `s` starting at index `i`. */
  predicate OccursAt(s: string, pat: string, i: int)
  {
    0 <= i && i + |pat| <= |s| && s[i..i + |pat|] == pat
  }

  /** Python's `pat in s` for a non-empty `pat`. */
  ghost predicate Contains(s: string, pat: string)
  {
    exists i :: OccursAt(s, pat, i)
  }

  /** The first index at or after `from` where `pat` occurs in `s`. */
  function FindFrom(s: string, pat: string, from: nat): (r: Option<nat>)
    requires pat != [] && from <= |s|
    ensures r.Some? ==> from <= r.value && OccursAt(s, pat, r.value)
    ensures r.Some? ==> forall j :: from <= j < r.value ==> !OccursAt(s, pat, j)
    ensures r.None? ==> forall j :: from <= j ==> !OccursAt(s, pat, j)
    decreases |s| - from
  {
    if from + |pat| > |s| then None
    else if s[from..from + |pat|] == pat then Some(from)
    else FindFrom(s, pat, from + 1)
  }

  /** Python's `s.find(pat)`, with None for -1. */
  function FindFirst(s: string, pat: string): (r: Option<nat>)
    requires pat != []
    ensures r.None? <==> !Contains(s, pat)
    ensures r.Some? ==> OccursAt(s, pat, r.value) && forall j :: 0 <= j < r.value ==> !OccursAt(s, pat, j)
  {
    FindFrom(s, pat, 0)
  }

  /**
   * Python's `s.split(sep)`: the pieces between non-overlapping occurrences
   * of `sep`, scanned left to right; `"".split(sep) == [""]`.
   */
  function Split(s: string, sep: string): (parts: seq<string>)
    requires sep != []
    ensures |parts| >= 1
    decreases |s|
  {
    match FindFirst(s, sep)
    case None => [s]
    case Some(i) => [s[..i]] + Split(s[i + |sep|..], sep)
  }

  /** Python's `sep.join(parts)`. */
  function Join(sep: string, parts: seq<string>): string
  {
    if parts == [] then ""
    else if |parts| == 1 then parts[0]
    else parts[0] + sep + Join(sep, parts[1..])
  }

  /** Joining a piece in front of a non-empty list puts one separator between. */
  lemma JoinCons(sep: string, head: string, tail: seq<string>)
    requires tail != []
    ensures Join(sep, [head] + tail) == head + sep + Join(sep, tail)
  {
    assert ([head] + tail)[1..] == tail;
  }

  /** An occurrence of `pat` at `i` cuts `s` into what is before it, `pat`, and what follows. */
  lemma CutAround(s: string, pat: string, i: nat)
    requires OccursAt(s, pat, i)
    ensures s == s[..i] + pat + s[i + |pat|..]
  {
    assert s == s[..i] + s[i..i + |pat|] + s[i + |pat|..];
  }

  /** A string splits at the first occurrence of the separator into head, separator and rest. */
  lemma SplitAtFirst(s: string, sep: string, i: nat)
    requires sep != [] && FindFirst(s, sep) == Some(i)
    ensures s == s[..i] + sep + s[i + |sep|..]
    ensures Split(s, sep) == [s[..i]] + Split(s[i + |sep|..], sep)
  {
    CutAround(s, sep, i);
  }

  /** Joining the pieces of a split with the same separator gives back the string. */
  lemma {:induction false} JoinSplit(s: string, sep: string)
    requires sep != []
    ensures Join(sep, Split(s, sep)) == s
    decreases |s|
  {
    match FindFirst(s, sep)
    case None =>
    case Some(i) =>
      var rest := s[i + |sep|..];
      JoinSplit(rest, sep);
      SplitAtFirst(s, sep, i);
      JoinCons(sep, s[..i], Split(rest, sep));
  }

  /** No piece of a split contains the separator. */
  lemma {:induction false} SplitPiecesAvoidSeparator(s: string, sep: string)
    requires sep != []
    ensures forall p :: p in Split(s, sep) ==> !Contains(p, sep)
    decreases |s|
  {
    match FindFirst(s, sep)
    case None =>
    case Some(i) =>
      var rest := s[i + |sep|..];
      SplitPiecesAvoidSeparator(rest, sep);
      var head := s[..i];
      assert forall j :: 0 <= j && j + |sep| <= i ==> !OccursAt(head, sep, j) by {
        forall j | 0 <= j && j + |sep| <= i ensures !OccursAt(head, sep, j) {
          assert head[j..j + |sep|] == s[j..j + |sep|];
          assert !OccursAt(s, sep, j);
        }
      }
      assert Split(s, sep) == [head] + Split(rest, sep);
  }

  /**
   * In `g + ", " + t`, where `g` does not contain ", ", the first ", " is the
   * one right after `g`: an occurrence overlapping the end of `g` would need
   * the separator's first character ',' to equal its second ' '.
   */
  lemma FirstCommaSpaceAfter(g: string, t: string)
    requires !Contains(g, ", ")
    ensures FindFirst(g + ", " + t, ", ") == Some(|g|)
  {
    var s := g + ", " + t;
    assert OccursAt(s, ", ", |g|) by {
      assert s[|g|..|g| + 2] == ", ";
    }
    forall j | 0 <= j < |g| ensures !OccursAt(s, ", ", j) {
      if j + 2 <= |g| {
        assert s[j..j + 2] == g[j..j + 2];
        assert !OccursAt(g, ", ", j);
      } else {
        assert s[j + 1] == ',';
      }
    }
    var r := FindFirst(s, ", ");
    assert r.Some? && r.value <= |g|;
  }

  /**
   * Splitting `", ".join(gs)` on ", " gives back `gs` when no element
   * contains ", "; an empty list comes back as `[""]`.
   */
  lemma {:induction false} SplitJoinCommaSpace(gs: seq<string>)
    requires forall g :: g in gs ==> !Contains(g, ", ")
    ensures Split(Join(", ", gs), ", ") == if gs == [] then [""] else gs
  {
    if gs == [] {
      assert FindFirst("", ", ") == None by {
        assert !Contains("", ", ");
      }
    } else if |gs| == 1 {
      assert gs[0] in gs;
    } else {
      var rest := Join(", ", gs[1..]);
      assert gs[0] in gs;
      FirstCommaSpaceAfter(gs[0], rest);
      var s := gs[0] + ", " + rest;
      assert s[|gs[0]| + 2..] == rest;
      SplitJoinCommaSpace(gs[1..]);
      assert Join(", ", gs) == s;
      assert Split(s, ", ") == [s[..|gs[0]|]] + Split(rest, ", ");
      assert s[..|gs[0]|] == gs[0];
      assert gs == [gs[0]] + gs[1..];
    }
  }

  /** SQLite's BINARY collation on text: lexicographic order on code points. */
  predicate TextLeq(a: string, b: string)
    decreases |a|
  {
    if a == [] then true
    else if b == [] then false
    else if a[0] != b[0] then a[0] < b[0]
    else TextLeq(a[1..], b[1..])
  }

  lemma {:induction false} TextLeqTotal(a: string, b: string)
    ensures TextLeq(a, b) || TextLeq(b, a)
    decreases |a|
  {
    if a != [] && b != [] && a[0] == b[0] {
      TextLeqTotal(a[1..], b[1..]);
    }
  }

  lemma {:induction false} TextLeqTransitive(a: string, b: string, c: string)
    requires TextLeq(a, b) && TextLeq(b, c)
    ensures TextLeq(a, c)
    decreases |a|
  {
    if a != [] && b != [] && c != [] && a[0] == b[0] && b[0] == c[0] {
      TextLeqTransitive(a[1..], b[1..], c[1..]);
    }
  }
}
