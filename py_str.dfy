/**
 * The Python `str` operations that index.py chains together: `strip()`,
 * `split()` with no argument, `split(sep)`, `replace(old, new)` and
 * `sep.join(parts)`, on strings as sequences of characters.
 *
 * The functions carry only the bounds their callers need; what each one
 * computes is stated by the lemma named after it (`StripLeftSpec`,
 * `FindSpec`, `SplitOnSpec`, ...), so that a proof pays for the facts it
 * asks for and no more.
 */
module PyStr {
  import opened Wrappers

  /**
   * The whitespace set of `str.split()` and `str.strip()` (`str.isspace`):
   * tab to carriage return, the four separators U+001C to U+001F, space,
   * U+0085, no-break space, and the Unicode space separators and line and
   * paragraph separators.
   */
  predicate IsWs(c: char) {
    || ('\t' <= c <= '\r')
    || ('\U{1C}' <= c <= ' ')
    || c == '\U{85}' || c == '\U{A0}' || c == '\U{1680}'
    || ('\U{2000}' <= c <= '\U{200A}')
    || c == '\U{2028}' || c == '\U{2029}' || c == '\U{202F}' || c == '\U{205F}' || c == '\U{3000}'
  }

  predicate AllWs(s: string) {
    forall i :: 0 <= i < |s| ==> IsWs(s[i])
  }

  predicate NoWs(s: string) {
    forall i :: 0 <= i < |s| ==> !IsWs(s[i])
  }

  /** `pat` starts at position `j` of `s`. */
  predicate OccursAt(s: string, pat: string, j: int) {
    0 <= j && j + |pat| <= |s| && s[j..j + |pat|] == pat
  }

  /** Python's `pat in s`. */
  predicate Contains(s: string, pat: string) {
    exists j :: 0 <= j <= |s| && OccursAt(s, pat, j)
  }

  // ---------------------------------------------------------------------
  // strip
  // ---------------------------------------------------------------------

  /** Python's `s.lstrip()`. */
  function StripLeft(s: string): (r: string)
    ensures |r| <= |s|
  {
    if |s| > 0 && IsWs(s[0]) then StripLeft(s[1..]) else s
  }

  /** `lstrip` gives the longest suffix of `s` that does not start with whitespace. */
  lemma {:induction false} StripLeftSpec(s: string)
    ensures StripLeft(s) == s[|s| - |StripLeft(s)|..]
    ensures AllWs(s[..|s| - |StripLeft(s)|])
    ensures StripLeft(s) == [] || !IsWs(StripLeft(s)[0])
  {
    if |s| > 0 && IsWs(s[0]) {
      StripLeftSpec(s[1..]);
      var r := StripLeft(s[1..]);
      var n := |s| - |r|;
      assert s[1..][n - 1..] == s[n..];
      forall i | 0 <= i < n ensures IsWs(s[..n][i]) {
        if i > 0 {
          assert s[..n][i] == s[1..][..n - 1][i - 1];
        }
      }
    }
  }

  /** Python's `s.rstrip()`. */
  function StripRight(s: string): (r: string)
    ensures |r| <= |s|
  {
    if |s| > 0 && IsWs(s[|s| - 1]) then StripRight(s[..|s| - 1]) else s
  }

  /** `rstrip` gives the longest prefix of `s` that does not end with whitespace. */
  lemma {:induction false} StripRightSpec(s: string)
    ensures StripRight(s) == s[..|StripRight(s)|]
    ensures AllWs(s[|StripRight(s)|..])
    ensures StripRight(s) == [] || !IsWs(StripRight(s)[|StripRight(s)| - 1])
  {
    if |s| > 0 && IsWs(s[|s| - 1]) {
      var init := s[..|s| - 1];
      StripRightSpec(init);
      var n := |StripRight(init)|;
      assert init[..n] == s[..n];
      forall i | 0 <= i < |s| - n ensures IsWs(s[n..][i]) {
        if n + i < |s| - 1 {
          assert s[n..][i] == init[n..][i];
        }
      }
    }
  }

  /** Python's `s.strip()`. */
  function Strip(s: string): string
  {
    StripRight(StripLeft(s))
  }

  /** A string that neither starts nor ends with whitespace is its own `strip()`. */
  lemma StripTrimmed(s: string)
    requires s == [] || (!IsWs(s[0]) && !IsWs(s[|s| - 1]))
    ensures Strip(s) == s
  {
  }

  // ---------------------------------------------------------------------
  // join
  // ---------------------------------------------------------------------

  /** Python's `sep.join(parts)`. */
  function Join(sep: string, parts: seq<string>): string
  {
    if |parts| == 0 then []
    else if |parts| == 1 then parts[0]
    else parts[0] + sep + Join(sep, parts[1..])
  }

  lemma JoinCons(sep: string, w: string, tail: seq<string>)
    requires tail != []
    ensures Join(sep, [w] + tail) == w + sep + Join(sep, tail)
  {
    assert ([w] + tail)[1..] == tail;
  }

  // ---------------------------------------------------------------------
  // find, split(sep), replace
  // ---------------------------------------------------------------------

  /** Python's `s.find(pat)`, `None` standing for -1. */
  function Find(s: string, pat: string): (r: Option<nat>)
    requires pat != []
    ensures r.Some? ==> r.value + |pat| <= |s|
  {
    FindFrom(s, pat, 0)
  }

  function FindFrom(s: string, pat: string, k: nat): (r: Option<nat>)
    requires pat != []
    ensures r.Some? ==> k <= r.value && r.value + |pat| <= |s|
    decreases |s| - k
  {
    if k + |pat| > |s| then None
    else if s[k..k + |pat|] == pat then Some(k)
    else FindFrom(s, pat, k + 1)
  }

  lemma {:induction false} FindFromSpec(s: string, pat: string, k: nat)
    requires pat != []
    requires forall j :: 0 <= j < k ==> !OccursAt(s, pat, j)
    ensures FindFrom(s, pat, k).Some? ==> OccursAt(s, pat, FindFrom(s, pat, k).value)
    ensures FindFrom(s, pat, k).Some? ==> forall j :: 0 <= j < FindFrom(s, pat, k).value ==> !OccursAt(s, pat, j)
    ensures FindFrom(s, pat, k).None? ==> forall j :: 0 <= j ==> !OccursAt(s, pat, j)
    decreases |s| - k
  {
    if k + |pat| <= |s| && s[k..k + |pat|] != pat {
      FindFromSpec(s, pat, k + 1);
    }
  }

  /** `find` reports the first position where `pat` occurs, and fails exactly when it does not occur. */
  lemma FindSpec(s: string, pat: string)
    requires pat != []
    ensures Find(s, pat).Some? ==> OccursAt(s, pat, Find(s, pat).value)
    ensures Find(s, pat).Some? ==> forall j :: 0 <= j < Find(s, pat).value ==> !OccursAt(s, pat, j)
    ensures Find(s, pat).None? <==> !Contains(s, pat)
  {
    FindFromSpec(s, pat, 0);
  }

  /** The first position of the character `c` is what `find` reports. */
  lemma FindFirstChar(s: string, c: char, i: nat)
    requires i < |s| && s[i] == c
    requires forall k :: 0 <= k < i ==> s[k] != c
    ensures Find(s, [c]) == Some(i)
  {
    FindSpec(s, [c]);
    assert s[i..i + 1] == [c];
    assert OccursAt(s, [c], i);
    var r := Find(s, [c]);
    assert s[r.value..r.value + 1] == [s[r.value]];
  }

  /** A character occurs nowhere in `s` exactly when `s` does not contain it. */
  lemma AbsentChar(s: string, c: char)
    ensures !Contains(s, [c]) <==> forall k :: 0 <= k < |s| ==> s[k] != c
  {
    forall k | 0 <= k < |s| ensures s[k] == c <==> OccursAt(s, [c], k) {
      assert s[k..k + 1] == [s[k]];
    }
  }

  /** Python's `s.split(sep)` for a non-empty separator. */
  function SplitOn(s: string, sep: string): (r: seq<string>)
    requires sep != []
    ensures |r| >= 1
    decreases |s|
  {
    match Find(s, sep)
    case None => [s]
    case Some(i) => [s[..i]] + SplitOn(s[i + |sep|..], sep)
  }

  /**
   * `split` cuts at every separator, left to right: there is more than one
   * piece exactly when the separator occurs, no piece contains it, and
   * joining the pieces with it gives `s` back.
   */
  lemma {:induction false} SplitOnSpec(s: string, sep: string)
    requires sep != []
    ensures |SplitOn(s, sep)| == 1 <==> !Contains(s, sep)
    ensures forall k :: 0 <= k < |SplitOn(s, sep)| ==> !Contains(SplitOn(s, sep)[k], sep)
    ensures Join(sep, SplitOn(s, sep)) == s
    decreases |s|
  {
    FindSpec(s, sep);
    match Find(s, sep)
    case None =>
    case Some(i) =>
      var rest := s[i + |sep|..];
      SplitOnSpec(rest, sep);
      SplitOnStep(s, sep, i, SplitOn(rest, sep));
  }

  lemma SplitOnStep(s: string, sep: string, i: nat, tail: seq<string>)
    requires sep != []
    requires OccursAt(s, sep, i)
    requires forall j :: 0 <= j < i ==> !OccursAt(s, sep, j)
    requires |tail| >= 1 && Join(sep, tail) == s[i + |sep|..]
    requires forall k :: 0 <= k < |tail| ==> !Contains(tail[k], sep)
    ensures |[s[..i]] + tail| != 1 && Contains(s, sep)
    ensures forall k :: 0 <= k < |[s[..i]] + tail| ==> !Contains(([s[..i]] + tail)[k], sep)
    ensures Join(sep, [s[..i]] + tail) == s
  {
    PrefixBeforeFirst(s, sep, i);
    JoinCons(sep, s[..i], tail);
    assert s == s[..i] + s[i..i + |sep|] + s[i + |sep|..];
  }

  /**
   * The cuts are made left to right at the leftmost separator: the first
   * piece runs up to the first occurrence, and the remaining pieces are
   * the split of the text after it.
   */
  lemma SplitOnFirstCut(s: string, sep: string)
    requires sep != []
    ensures forall j :: 0 <= j < |SplitOn(s, sep)[0]| ==> !OccursAt(s, sep, j)
    ensures |SplitOn(s, sep)| > 1 ==>
      && OccursAt(s, sep, |SplitOn(s, sep)[0]|)
      && SplitOn(s, sep)[1..] == SplitOn(s[|SplitOn(s, sep)[0]| + |sep|..], sep)
  {
    FindSpec(s, sep);
  }

  /** No proper suffix of `sep` is also a prefix of it, so two occurrences never overlap. */
  predicate SelfOverlapFree(sep: string) {
    forall d :: 0 < d < |sep| ==> sep[d..] != sep[..|sep| - d]
  }

  /** In `p + sep + rest`, with no `sep` inside `p`, the first `sep` is the one right after `p`. */
  lemma FirstCutAt(s: string, sep: string, p: string, rest: string)
    requires sep != [] && SelfOverlapFree(sep)
    requires !Contains(p, sep) && s == p + sep + rest
    ensures Find(s, sep) == Some(|p|)
  {
    FindSpec(s, sep);
    assert s[|p|..|p| + |sep|] == sep;
    assert OccursAt(s, sep, |p|);
    forall j | 0 <= j < |p| ensures !OccursAt(s, sep, j) {
      if j + |sep| <= |p| {
        assert s[j..j + |sep|] == p[j..j + |sep|];
        assert !OccursAt(p, sep, j);
      } else if j + |sep| <= |s| {
        var d := |p| - j;
        assert s[j..j + |sep|][d..] == s[|p|..j + |sep|] == sep[..|sep| - d];
      }
    }
  }

  /**
   * For a separator that cannot overlap itself, `split` is the only way to
   * cut `s` into pieces that hold no separator and join back to `s`.
   */
  lemma {:induction false} SplitOnUnique(s: string, sep: string, parts: seq<string>)
    requires sep != [] && SelfOverlapFree(sep)
    requires |parts| >= 1 && Join(sep, parts) == s
    requires forall k :: 0 <= k < |parts| ==> !Contains(parts[k], sep)
    ensures parts == SplitOn(s, sep)
    decreases |parts|
  {
    FindSpec(s, sep);
    if |parts| > 1 {
      var p := parts[0];
      var rest := Join(sep, parts[1..]);
      JoinCons(sep, p, parts[1..]);
      assert [p] + parts[1..] == parts;
      FirstCutAt(s, sep, p, rest);
      assert s[..|p|] == p && s[|p| + |sep|..] == rest;
      SplitOnUnique(rest, sep, parts[1..]);
      assert SplitOn(s, sep) == [p] + SplitOn(rest, sep);
    }
  }

  /** The prefix of `s` before the first occurrence of `pat` does not contain `pat`. */
  lemma PrefixBeforeFirst(s: string, pat: string, i: nat)
    requires pat != []
    requires OccursAt(s, pat, i)
    requires forall j :: 0 <= j < i ==> !OccursAt(s, pat, j)
    ensures !Contains(s[..i], pat)
  {
    forall j | 0 <= j <= i ensures !OccursAt(s[..i], pat, j) {
      if j + |pat| <= i {
        assert s[..i][j..j + |pat|] == s[j..j + |pat|];
        assert !OccursAt(s, pat, j);
      }
    }
  }

  /** Python's `s.replace(pat, rep)` for a non-empty `pat`: left to right, non-overlapping. */
  function Replace(s: string, pat: string, rep: string): string
    requires pat != []
    decreases |s|
  {
    match Find(s, pat)
    case None => s
    case Some(i) => s[..i] + rep + Replace(s[i + |pat|..], pat, rep)
  }

  /** Replacing a character that occurs exactly once replaces that one occurrence. */
  lemma ReplaceSingleChar(u: string, c: char, v: string, rep: string)
    requires forall k :: 0 <= k < |u| ==> u[k] != c
    requires forall k :: 0 <= k < |v| ==> v[k] != c
    ensures Replace(u + [c] + v, [c], rep) == u + rep + v
  {
    var x := u + [c] + v;
    assert x[|u|] == c && forall k :: 0 <= k < |u| ==> x[k] == u[k];
    FindFirstChar(x, c, |u|);
    AbsentChar(v, c);
    ReplaceAbsent(v, [c], rep);
    assert x[..|u|] == u && x[|u| + 1..] == v;
  }

  /** One step of deleting a character: the text before its first occurrence, then the rest with it deleted. */
  lemma ReplaceCharStep(s: string, c: char, i: nat)
    requires Find(s, [c]) == Some(i)
    ensures i < |s| && s[i] == c
    ensures Replace(s, [c], []) == s[..i] + Replace(s[i + 1..], [c], [])
  {
    FindFoundChar(s, c, i);
    ReplaceFound(s, [c], [], i);
    assert s[..i] + [] == s[..i];
  }

  lemma ReplaceFound(s: string, pat: string, rep: string, i: nat)
    requires pat != [] && Find(s, pat) == Some(i)
    ensures i + |pat| <= |s|
    ensures Replace(s, pat, rep) == s[..i] + rep + Replace(s[i + |pat|..], pat, rep)
  {
  }

  /** The position `find` reports for a character holds that character. */
  lemma FindFoundChar(s: string, c: char, i: nat)
    requires Find(s, [c]) == Some(i)
    ensures i < |s| && s[i] == c
  {
    FindSpec(s, [c]);
    assert s[i] == s[i..i + 1][0];
  }

  /** `replace` is `join` over `split`: the Python identity `s.replace(p, r) == r.join(s.split(p))`. */
  lemma {:induction false} ReplaceIsJoinOfSplit(s: string, pat: string, rep: string)
    requires pat != []
    ensures Replace(s, pat, rep) == Join(rep, SplitOn(s, pat))
    decreases |s|
  {
    match Find(s, pat)
    case None =>
    case Some(i) =>
      var rest := s[i + |pat|..];
      ReplaceIsJoinOfSplit(rest, pat, rep);
      JoinCons(rep, s[..i], SplitOn(rest, pat));
  }

  /** Replacing something that does not occur changes nothing. */
  lemma ReplaceAbsent(s: string, pat: string, rep: string)
    requires pat != [] && !Contains(s, pat)
    ensures Replace(s, pat, rep) == s
  {
    FindSpec(s, pat);
  }

  /** Deleting every `c` leaves no `c` behind. */
  lemma {:induction false} ReplaceCharRemovesIt(s: string, c: char)
    ensures forall k :: 0 <= k < |Replace(s, [c], [])| ==> Replace(s, [c], [])[k] != c
    decreases |s|
  {
    FindSpec(s, [c]);
    match Find(s, [c])
    case None =>
      AbsentChar(s, c);
    case Some(i) =>
      ReplaceCharRemovesIt(s[i + 1..], c);
      PrefixBeforeFirst(s, [c], i);
      AbsentChar(s[..i], c);
  }

  // ---------------------------------------------------------------------
  // split()
  // ---------------------------------------------------------------------

  /** The longest prefix of `s` that holds no whitespace. */
  function Word(s: string): (r: string)
    ensures |r| <= |s|
    ensures s != [] && !IsWs(s[0]) ==> r != []
  {
    if |s| == 0 || IsWs(s[0]) then [] else [s[0]] + Word(s[1..])
  }

  lemma {:induction false} WordSpec(s: string)
    ensures Word(s) == s[..|Word(s)|] && NoWs(Word(s))
    ensures |Word(s)| < |s| ==> IsWs(s[|Word(s)|])
  {
    if |s| > 0 && !IsWs(s[0]) {
      WordSpec(s[1..]);
    }
  }

  /** Python's `s.split()`: the maximal runs of non-whitespace characters, in order. */
  function SplitWs(s: string): seq<string>
    decreases |s|
  {
    if s == [] then []
    else if IsWs(s[0]) then SplitWs(s[1..])
    else
      var w := Word(s);
      [w] + SplitWs(s[|w|..])
  }

  /** Every word `split()` returns is non-empty and free of whitespace. */
  lemma {:induction false} SplitWsWords(s: string)
    ensures forall k :: 0 <= k < |SplitWs(s)| ==> SplitWs(s)[k] != [] && NoWs(SplitWs(s)[k])
    decreases |s|
  {
    if s == [] {
    } else if IsWs(s[0]) {
      SplitWsWords(s[1..]);
    } else {
      var w := Word(s);
      WordSpec(s);
      SplitWsWords(s[|w|..]);
    }
  }

  /** A whitespace-free word is its own leading word. */
  lemma WordOfNoWs(s: string)
    requires NoWs(s)
    ensures Word(s) == s
  {
    WordSpec(s);
  }

  lemma {:induction false} WordPrefix(u: string, rest: string)
    requires NoWs(u)
    requires rest == [] || IsWs(rest[0])
    ensures Word(u + rest) == u
    decreases |u|
  {
    if u == [] {
      assert u + rest == rest;
    } else {
      assert (u + rest)[0] == u[0];
      assert (u + rest)[1..] == u[1..] + rest;
      WordPrefix(u[1..], rest);
    }
  }

  /** `split()` ignores leading whitespace. */
  lemma {:induction false} SplitWsSkipsGap(g: string, v: string)
    requires AllWs(g)
    ensures SplitWs(g + v) == SplitWs(v)
    decreases |g|
  {
    if g == [] {
      assert g + v == v;
    } else {
      assert (g + v)[0] == g[0];
      assert (g + v)[1..] == g[1..] + v;
      SplitWsSkipsGap(g[1..], v);
    }
  }

  /** `split()` of a word, a whitespace gap, and more text starts with that word. */
  lemma SplitWsGap(u: string, g: string, v: string)
    requires u != [] && NoWs(u)
    requires g != [] && AllWs(g)
    ensures SplitWs(u + g + v) == [u] + SplitWs(v)
  {
    var s := u + (g + v);
    assert s == u + g + v;
    assert s[0] == u[0];
    WordPrefix(u, g + v);
    assert s[|u|..] == g + v;
    SplitWsSkipsGap(g, v);
  }

  /** `split()` of one whitespace-free word is that word alone. */
  lemma SplitWsWord(u: string)
    requires u != [] && NoWs(u)
    ensures SplitWs(u) == [u]
  {
    WordOfNoWs(u);
    assert u[|u|..] == [];
  }

  // ---------------------------------------------------------------------
  // the non-whitespace text of a string
  // ---------------------------------------------------------------------

  /** The characters of `s` that are not whitespace, in order. */
  function RemoveWs(s: string): string
  {
    if s == [] then []
    else (if IsWs(s[0]) then [] else [s[0]]) + RemoveWs(s[1..])
  }

  lemma {:induction false} RemoveWsAppend(a: string, b: string)
    ensures RemoveWs(a + b) == RemoveWs(a) + RemoveWs(b)
  {
    if a == [] {
      assert a + b == b;
    } else {
      assert (a + b)[0] == a[0];
      assert (a + b)[1..] == a[1..] + b;
      RemoveWsAppend(a[1..], b);
    }
  }

  /** Whitespace is exactly what RemoveWs throws away. */
  lemma {:induction false} RemoveWsEmpty(s: string)
    ensures RemoveWs(s) == [] <==> AllWs(s)
  {
    if s != [] {
      RemoveWsEmpty(s[1..]);
      if !IsWs(s[0]) {
        assert RemoveWs(s)[0] == s[0];
      }
    }
  }

  lemma {:induction false} RemoveWsNoWs(s: string)
    requires NoWs(s)
    ensures RemoveWs(s) == s
  {
    if s != [] {
      RemoveWsNoWs(s[1..]);
    }
  }

  /** Deleting a whitespace character changes none of the non-whitespace text. */
  lemma {:induction false} ReplaceWsKeepsText(s: string, c: char)
    requires IsWs(c)
    ensures RemoveWs(Replace(s, [c], [])) == RemoveWs(s)
    decreases |s|
  {
    FindSpec(s, [c]);
    match Find(s, [c])
    case None =>
    case Some(i) =>
      var rest := s[i + 1..];
      ReplaceWsKeepsText(rest, c);
      ReplaceCharStep(s, c, i);
      RemoveWsAt(s, i);
      RemoveWsAppend(s[..i], Replace(rest, [c], []));
  }

  /** Cutting out one whitespace character keeps the text on both sides. */
  lemma RemoveWsAt(s: string, i: nat)
    requires i < |s| && IsWs(s[i])
    ensures RemoveWs(s) == RemoveWs(s[..i]) + RemoveWs(s[i + 1..])
  {
    var t := [s[i]] + s[i + 1..];
    assert s == s[..i] + t;
    assert t[0] == s[i] && t[1..] == s[i + 1..];
    assert RemoveWs(t) == RemoveWs(s[i + 1..]);
    RemoveWsAppend(s[..i], t);
  }

  /** `strip()` removes only whitespace. */
  lemma StripKeepsText(s: string)
    ensures RemoveWs(Strip(s)) == RemoveWs(s)
  {
    var l := StripLeft(s);
    StripLeftSpec(s);
    assert s == s[..|s| - |l|] + l;
    RemoveWsAppend(s[..|s| - |l|], l);
    RemoveWsEmpty(s[..|s| - |l|]);
    var r := StripRight(l);
    StripRightSpec(l);
    assert l == r + l[|r|..];
    RemoveWsAppend(r, l[|r|..]);
    RemoveWsEmpty(l[|r|..]);
  }

  /** `" ".join(s.split())` removes only whitespace. */
  lemma {:induction false} JoinSplitWsKeepsText(s: string)
    ensures RemoveWs(Join(" ", SplitWs(s))) == RemoveWs(s)
    decreases |s|
  {
    if s == [] {
    } else if IsWs(s[0]) {
      JoinSplitWsKeepsText(s[1..]);
    } else {
      var w := Word(s);
      var rest := s[|w|..];
      WordSpec(s);
      JoinSplitWsKeepsText(rest);
      assert s == w + rest;
      RemoveWsAppend(w, rest);
      RemoveWsNoWs(w);
      JoinConsText(w, SplitWs(rest));
    }
  }

  lemma JoinConsText(w: string, tail: seq<string>)
    ensures RemoveWs(Join(" ", [w] + tail)) == RemoveWs(w) + RemoveWs(Join(" ", tail))
  {
    if tail == [] {
      assert [w] + tail == [w];
    } else {
      JoinCons(" ", w, tail);
      RemoveWsAppend(w + " ", Join(" ", tail));
      RemoveWsAppend(w, " ");
    }
  }
}
