/**
 * The handful of Python `str` operations the scraper uses, on `seq<char>`,
 * restricted to ASCII case mapping and ASCII whitespace. `Find` and `Join`
 * are not called by the scraper: they are the search and the inverse that
 * specify `Split`.
 */
module Strings {
  import opened Wrappers

  /** The ASCII characters for which Python's `str.isspace()` holds; `str.strip()` removes them. */
  const Whitespace: set<char> :=
    {' ', '\t', '\n', '\r', '\U{0B}', '\U{0C}', '\U{1C}', '\U{1D}', '\U{1E}', '\U{1F}'}

  predicate IsUpper(c: char) {
    'A' <= c <= 'Z'
  }

  /** ASCII lower-casing of one character; every other character is left alone. */
  function LowerChar(c: char): char {
    if IsUpper(c) then (c as int + 32) as char else c
  }

  /** `s.lower()` on ASCII letters. */
  function Lower(s: string): (r: string)
    ensures |r| == |s|
  {
    seq(|s|, i requires 0 <= i < |s| => LowerChar(s[i]))
  }

  /**
   * Lower-casing keeps the length, moves each ASCII capital 32 code points
   * down to its small letter, leaves every other character alone, and leaves
   * no ASCII capital behind.
   */
  lemma LowerSpec(s: string)
    ensures |Lower(s)| == |s|
    ensures forall i :: 0 <= i < |s| && IsUpper(s[i]) ==> Lower(s)[i] as int == s[i] as int + 32
    ensures forall i :: 0 <= i < |s| && !IsUpper(s[i]) ==> Lower(s)[i] == s[i]
    ensures forall i :: 0 <= i < |s| ==> !IsUpper(Lower(s)[i])
  {
  }

  /** Lower-casing twice is lower-casing once. */
  lemma LowerIdempotent(s: string)
    ensures Lower(Lower(s)) == Lower(s)
  {
  }

  /** `s.replace(a, b)` for a one-character pattern `a` and one-character replacement `b`. */
  function ReplaceChar(s: string, a: char, b: char): (r: string)
    ensures |r| == |s|
    ensures a != b ==> a !in r
    ensures forall i :: 0 <= i < |s| && s[i] != a ==> r[i] == s[i]
    ensures forall i :: 0 <= i < |s| && s[i] == a ==> r[i] == b
  {
    seq(|s|, i requires 0 <= i < |s| => if s[i] == a then b else s[i])
  }

  /** `s.replace(c, "")`: every occurrence of `c` removed, everything else kept in order. */
  function DeleteChar(s: string, c: char): (r: string)
    ensures c !in r
    ensures |r| <= |s|
    ensures c !in s ==> r == s
    decreases |s|
  {
    if |s| == 0 then ""
    else if s[0] == c then DeleteChar(s[1..], c)
    else [s[0]] + DeleteChar(s[1..], c)
  }

  /** Deleting a character distributes over concatenation. */
  lemma {:induction false} DeleteCharAppend(a: string, b: string, c: char)
    ensures DeleteChar(a + b, c) == DeleteChar(a, c) + DeleteChar(b, c)
    decreases |a|
  {
    if |a| == 0 {
      assert a + b == b;
    } else {
      assert (a + b)[1..] == a[1..] + b;
      DeleteCharAppend(a[1..], b, c);
    }
  }

  /** Leading characters in `cs` removed. */
  function TrimLeft(s: string, cs: set<char>): string
    decreases |s|
  {
    if |s| > 0 && s[0] in cs then TrimLeft(s[1..], cs) else s
  }

  /** Trimming on the left leaves a suffix that does not start in `cs`, having cut only members of `cs`. */
  lemma {:induction false} TrimLeftSpec(s: string, cs: set<char>)
    ensures |TrimLeft(s, cs)| <= |s| && TrimLeft(s, cs) == s[|s| - |TrimLeft(s, cs)|..]
    ensures |TrimLeft(s, cs)| > 0 ==> TrimLeft(s, cs)[0] !in cs
    ensures forall i :: 0 <= i < |s| - |TrimLeft(s, cs)| ==> s[i] in cs
    decreases |s|
  {
    if |s| > 0 && s[0] in cs {
      TrimLeftSpec(s[1..], cs);
    }
  }

  /** Trailing characters in `cs` removed. */
  function TrimRight(s: string, cs: set<char>): string
    decreases |s|
  {
    if |s| > 0 && s[|s| - 1] in cs then TrimRight(s[..|s| - 1], cs) else s
  }

  /** Trimming on the right leaves a prefix that does not end in `cs`, having cut only members of `cs`. */
  lemma {:induction false} TrimRightSpec(s: string, cs: set<char>)
    ensures |TrimRight(s, cs)| <= |s| && TrimRight(s, cs) == s[..|TrimRight(s, cs)|]
    ensures |TrimRight(s, cs)| > 0 ==> TrimRight(s, cs)[|TrimRight(s, cs)| - 1] !in cs
    ensures forall i :: |TrimRight(s, cs)| <= i < |s| ==> s[i] in cs
    decreases |s|
  {
    if |s| > 0 && s[|s| - 1] in cs {
      TrimRightSpec(s[..|s| - 1], cs);
    }
  }

  /** `s.strip(chars)` for the character set `cs`. */
  function StripSet(s: string, cs: set<char>): string {
    TrimRight(TrimLeft(s, cs), cs)
  }

  /**
   * What `s.strip(chars)` leaves: the run of `s` starting at index `a` that
   * neither starts nor ends with a member of `cs`, where everything cut away
   * before `a` and after the run is a member of `cs`.
   */
  lemma StripSetSpec(s: string, cs: set<char>) returns (a: nat)
    ensures a + |StripSet(s, cs)| <= |s|
    ensures StripSet(s, cs) == s[a..a + |StripSet(s, cs)|]
    ensures |StripSet(s, cs)| > 0 ==> StripSet(s, cs)[0] !in cs && StripSet(s, cs)[|StripSet(s, cs)| - 1] !in cs
    ensures forall i :: 0 <= i < a ==> s[i] in cs
    ensures forall i :: a + |StripSet(s, cs)| <= i < |s| ==> s[i] in cs
  {
    var left := TrimLeft(s, cs);
    TrimLeftSpec(s, cs);
    TrimRightSpec(left, cs);
    a := |s| - |left|;
    var r := StripSet(s, cs);
    assert r == left[..|r|];
    assert left[..|r|] == s[a..a + |r|];
  }

  /**
   * `s.strip(chars)` is no longer than `s`, neither of its ends is a member
   * of `cs`, and it is `s` itself when `s` holds no member of `cs`.
   */
  lemma StripSetEnds(s: string, cs: set<char>)
    ensures |StripSet(s, cs)| <= |s|
    ensures |StripSet(s, cs)| > 0 ==> StripSet(s, cs)[0] !in cs && StripSet(s, cs)[|StripSet(s, cs)| - 1] !in cs
    ensures (forall i :: 0 <= i < |s| ==> s[i] !in cs) ==> StripSet(s, cs) == s
  {
    var a := StripSetSpec(s, cs);
    if forall i :: 0 <= i < |s| ==> s[i] !in cs {
      assert a == 0 && a + |StripSet(s, cs)| == |s|;
    }
  }

  /** `s.strip()`: ASCII whitespace removed from both ends, and nothing else. */
  function Strip(s: string): (r: string)
    ensures |r| <= |s|
    ensures |r| > 0 ==> r[0] !in Whitespace && r[|r| - 1] !in Whitespace
    ensures (forall i :: 0 <= i < |s| ==> s[i] !in Whitespace) ==> r == s
  {
    StripSetEnds(s, Whitespace);
    StripSet(s, Whitespace)
  }

  /** `s.strip("'")`: single quotes removed from both ends, and nothing else. */
  function StripQuotes(s: string): (r: string)
    ensures |r| <= |s|
    ensures |r| > 0 ==> r[0] != '\'' && r[|r| - 1] != '\''
    ensures '\'' !in s ==> r == s
  {
    StripSetEnds(s, {'\''});
    StripSet(s, {'\''})
  }

  /** Stripping leaves a string alone whose two ends are already outside `cs`. */
  lemma StripSetKeeps(s: string, cs: set<char>)
    requires |s| > 0 && s[0] !in cs && s[|s| - 1] !in cs
    ensures StripSet(s, cs) == s
  {
  }

  /** Stripping drops one leading member of `cs` and keeps what follows when that is already stripped. */
  lemma StripSetDropsLead(c: char, s: string, cs: set<char>)
    requires c in cs && |s| > 0 && s[0] !in cs && s[|s| - 1] !in cs
    ensures StripSet([c] + s, cs) == s
  {
    assert ([c] + s)[1..] == s;
    assert TrimLeft([c] + s, cs) == TrimLeft(s, cs) == s;
  }

  /** Stripping `cs` from `[c] + s + [c]`, with `c` in `cs` and `s` already stripped, gives `s`. */
  lemma StripSetEnclosed(c: char, s: string, cs: set<char>)
    requires c in cs
    requires |s| > 0 ==> s[0] !in cs && s[|s| - 1] !in cs
    ensures StripSet([c] + s + [c], cs) == s
  {
    var w := [c] + s + [c];
    assert w[1..] == s + [c];
    assert TrimLeft(w, cs) == TrimLeft(s + [c], cs);
    if |s| == 0 {
      assert (s + [c])[1..] == [];
      assert TrimLeft(s + [c], cs) == [];
    } else {
      assert TrimLeft(s + [c], cs) == s + [c];
      assert (s + [c])[..|s|] == s;
      assert TrimRight(s + [c], cs) == TrimRight(s, cs);
    }
  }

  /** `sep` occurs in `s` at index `k`. */
  predicate Occurs(s: string, sep: string, k: int) {
    0 <= k && k + |sep| <= |s| && s[k..k + |sep|] == sep
  }

  /** `sep in s` for a non-empty `sep`. */
  ghost predicate Contains(s: string, sep: string) {
    exists k :: Occurs(s, sep, k)
  }

  /** A string lacking one of the characters of `sep` does not contain `sep`. */
  lemma MissingCharNotContained(s: string, sep: string, c: char)
    requires c in sep && c !in s
    ensures !Contains(s, sep)
  {
    var i :| 0 <= i < |sep| && sep[i] == c;
    forall k ensures !Occurs(s, sep, k) {
      if 0 <= k && k + |sep| <= |s| {
        assert s[k..k + |sep|][i] == s[k + i];
      }
    }
  }

  /** The least index at or after `i` at which `sep` occurs in `s`, or None. */
  function FindFrom(s: string, sep: string, i: nat): (r: Option<nat>)
    requires |sep| > 0
    ensures r.Some? ==> i <= r.value && r.value + |sep| <= |s|
    decreases |s| - i
  {
    if i + |sep| > |s| then None
    else if s[i..i + |sep|] == sep then Some(i)
    else FindFrom(s, sep, i + 1)
  }

  /** The scan from `i` stops at the least occurrence at or after `i`, and finds none only when there is none. */
  lemma {:induction false} FindFromSpec(s: string, sep: string, i: nat)
    requires |sep| > 0
    ensures FindFrom(s, sep, i).Some? ==>
              i <= FindFrom(s, sep, i).value && Occurs(s, sep, FindFrom(s, sep, i).value)
    ensures FindFrom(s, sep, i).Some? ==>
              forall k :: i <= k < FindFrom(s, sep, i).value ==> !Occurs(s, sep, k)
    ensures FindFrom(s, sep, i).None? ==> forall k :: i <= k ==> !Occurs(s, sep, k)
    decreases |s| - i
  {
    if i + |sep| <= |s| && s[i..i + |sep|] != sep {
      FindFromSpec(s, sep, i + 1);
    }
  }

  /** `s.find(sep)`: the least index at which `sep` occurs, or None. */
  function Find(s: string, sep: string): (r: Option<nat>)
    requires |sep| > 0
    ensures r.Some? ==> r.value + |sep| <= |s|
  {
    FindFrom(s, sep, 0)
  }

  /** `s.find(sep)` is the least index at which `sep` occurs, and is None exactly when `sep` is not in `s`. */
  lemma FindSpec(s: string, sep: string)
    requires |sep| > 0
    ensures Find(s, sep).Some? ==> Occurs(s, sep, Find(s, sep).value)
    ensures Find(s, sep).Some? ==> forall k :: 0 <= k < Find(s, sep).value ==> !Occurs(s, sep, k)
    ensures Find(s, sep).None? <==> !Contains(s, sep)
  {
    FindFromSpec(s, sep, 0);
  }

  /** Python's `sep.join(parts)`. */
  function Join(parts: seq<string>, sep: string): string
    requires |parts| >= 1
  {
    if |parts| == 1 then parts[0] else parts[0] + sep + Join(parts[1..], sep)
  }

  /** An occurrence inside the slice `s[a..b]` is an occurrence in `s`, shifted by `a`. */
  lemma OccursInSlice(s: string, sep: string, a: nat, b: nat, j: int)
    requires a <= b <= |s|
    ensures Occurs(s[a..b], sep, j) ==> Occurs(s, sep, a + j)
  {
    if Occurs(s[a..b], sep, j) {
      var w := s[a..b][j..j + |sep|];
      forall t | 0 <= t < |sep| ensures w[t] == s[a + j..a + j + |sep|][t] {
        assert w[t] == s[a + j + t];
      }
      assert w == s[a + j..a + j + |sep|];
    }
  }

  /**
   * The pieces of `s[start..]` cut at every occurrence of `sep`, scanning left
   * to right without overlap; `s` itself is never sliced by the recursion.
   */
  function SplitFrom(s: string, sep: string, start: nat): (r: seq<string>)
    requires |sep| > 0 && start <= |s|
    ensures |r| >= 1
    decreases |s| - start
  {
    match FindFrom(s, sep, start)
    case None => [s[start..]]
    case Some(k) => [s[start..k]] + SplitFrom(s, sep, k + |sep|)
  }

  /** Where the scan from `start` finds `sep` at `k`, the split cuts there and goes on after it. */
  lemma SplitFromStep(s: string, sep: string, start: nat, k: nat)
    requires |sep| > 0 && start <= |s| && FindFrom(s, sep, start) == Some(k)
    ensures SplitFrom(s, sep, start) == [s[start..k]] + SplitFrom(s, sep, k + |sep|)
  {
  }

  /** Where the scan from `start` finds nothing, the rest of `s` is the last piece. */
  lemma SplitFromLast(s: string, sep: string, start: nat)
    requires |sep| > 0 && start <= |s| && FindFrom(s, sep, start).None?
    ensures SplitFrom(s, sep, start) == [s[start..]]
  {
  }

  /**
   * `s.split(sep)` for a non-empty `sep`. `SplitSingleIff`, `SplitJoin` and
   * `SplitPiecesFree` say what the pieces are.
   */
  function Split(s: string, sep: string): (r: seq<string>)
    requires |sep| > 0
    ensures |r| >= 1
  {
    SplitFrom(s, sep, 0)
  }

  /** `s.split(sep)` has a single piece exactly when `sep` does not occur in `s`. */
  lemma SplitSingleIff(s: string, sep: string)
    requires |sep| > 0
    ensures |Split(s, sep)| == 1 <==> !Contains(s, sep)
  {
    FindSpec(s, sep);
  }

  /** Joining the pieces of `s[start..]` with `sep` gives back `s[start..]`. */
  lemma {:induction false} JoinSplitFrom(s: string, sep: string, start: nat)
    requires |sep| > 0 && start <= |s|
    ensures Join(SplitFrom(s, sep, start), sep) == s[start..]
    decreases |s| - start
  {
    match FindFrom(s, sep, start)
    case None =>
    case Some(k) =>
      JoinSplitStep(s, sep, start, k);
      JoinSplitFrom(s, sep, k + |sep|);
      assert s[k..k + |sep|] == sep by { FindFromSpec(s, sep, start); }
      assert s[start..] == s[start..k] + s[k..k + |sep|] + s[k + |sep|..];
  }

  /** Where the scan from `start` finds `sep` at `k`, joining the pieces puts `sep` back between the first piece and the rest. */
  lemma JoinSplitStep(s: string, sep: string, start: nat, k: nat)
    requires |sep| > 0 && start <= |s| && FindFrom(s, sep, start) == Some(k)
    ensures Join(SplitFrom(s, sep, start), sep) == s[start..k] + sep + Join(SplitFrom(s, sep, k + |sep|), sep)
  {
    var rest := SplitFrom(s, sep, k + |sep|);
    SplitFromStep(s, sep, start, k);
    assert ([s[start..k]] + rest)[1..] == rest;
  }

  /** Joining the pieces of `s.split(sep)` with `sep` gives back `s`. */
  lemma SplitJoin(s: string, sep: string)
    requires |sep| > 0
    ensures Join(Split(s, sep), sep) == s
  {
    JoinSplitFrom(s, sep, 0);
    assert s[0..] == s;
  }

  /** No piece of `s[start..]`'s split contains `sep`. */
  lemma {:induction false} SplitFromPiecesFree(s: string, sep: string, start: nat)
    requires |sep| > 0 && start <= |s|
    ensures forall i :: 0 <= i < |SplitFrom(s, sep, start)| ==> !Contains(SplitFrom(s, sep, start)[i], sep)
    decreases |s| - start
  {
    FindFromSpec(s, sep, start);
    match FindFrom(s, sep, start)
    case None =>
      assert s[start..] == s[start..|s|];
      forall j ensures !Occurs(s[start..|s|], sep, j) {
        OccursInSlice(s, sep, start, |s|, j);
      }
    case Some(k) =>
      var rest := SplitFrom(s, sep, k + |sep|);
      SplitFromStep(s, sep, start, k);
      forall i | 0 <= i < |SplitFrom(s, sep, start)| ensures !Contains(SplitFrom(s, sep, start)[i], sep) {
        if i == 0 {
          forall j ensures !Occurs(s[start..k], sep, j) {
            OccursInSlice(s, sep, start, k, j);
          }
        } else {
          SplitFromPiecesFree(s, sep, k + |sep|);
          assert SplitFrom(s, sep, start)[i] == rest[i - 1];
        }
      }
  }

  /** No piece of `s.split(sep)` contains `sep`. */
  lemma SplitPiecesFree(s: string, sep: string)
    requires |sep| > 0
    ensures forall i :: 0 <= i < |Split(s, sep)| ==> !Contains(Split(s, sep)[i], sep)
  {
    SplitFromPiecesFree(s, sep, 0);
  }

  /** With no occurrence at or after `i`, the scan from `i` finds nothing. */
  lemma FindFromNone(s: string, sep: string, i: nat)
    requires |sep| > 0
    requires forall k :: i <= k ==> !Occurs(s, sep, k)
    ensures FindFrom(s, sep, i).None?
  {
    FindFromSpec(s, sep, i);
  }

  /** A string holding no occurrence of `sep` splits into itself alone. */
  lemma SplitNone(s: string, sep: string)
    requires |sep| > 0 && !Contains(s, sep)
    ensures Split(s, sep) == [s]
  {
    FindFromNone(s, sep, 0);
    SplitFromLast(s, sep, 0);
    assert s[0..] == s;
  }

  /** A string in which `sep` occurs only at `k` splits into the text before and the text after it. */
  lemma SplitExactlyOnce(s: string, sep: string, k: nat)
    requires |sep| > 0 && Occurs(s, sep, k)
    requires forall j :: Occurs(s, sep, j) ==> j == k
    ensures Split(s, sep) == [s[..k], s[k + |sep|..]]
  {
    assert FindFrom(s, sep, 0) == Some(k) by {
      FindFromSpec(s, sep, 0);
    }
    assert FindFrom(s, sep, k + |sep|).None? by {
      FindFromNone(s, sep, k + |sep|);
    }
    SplitFromStep(s, sep, 0, k);
    SplitFromLast(s, sep, k + |sep|);
    assert s[0..k] == s[..k];
  }

  /** Occurrences in `p + y` at or after `|p|` are the occurrences in `y`, shifted by `|p|`. */
  lemma OccursShift(p: string, y: string, sep: string, j: int)
    requires 0 <= j
    ensures Occurs(p + y, sep, |p| + j) <==> Occurs(y, sep, j)
  {
    if j + |sep| <= |y| {
      assert (p + y)[|p| + j..|p| + j + |sep|] == y[j..j + |sep|];
    }
  }

  /**
   * `sep` cannot occur in `x + [c] + y` at an index up to `|x|` when `c` is not
   * a character of `sep` and `sep` does not occur in `x`: such a window either
   * lies inside `x` or covers the barrier `c`.
   */
  lemma NoOccurrenceBeforeBarrier(x: string, c: char, y: string, sep: string, k: int)
    requires |sep| > 0 && c !in sep && !Contains(x, sep)
    requires 0 <= k <= |x|
    ensures !Occurs(x + [c] + y, sep, k)
  {
    var s := x + [c] + y;
    if k + |sep| <= |x| {
      assert s[k..k + |sep|] == x[k..k + |sep|];
      assert !Occurs(x, sep, k);
    } else if k + |sep| <= |s| {
      assert s[k..k + |sep|][|x| - k] == c;
      assert sep[|x| - k] != c;
    }
  }

  /** Every occurrence in `x + [c] + y` lies past the barrier, and is an occurrence in `y`. */
  lemma OccursAcrossBarrier(x: string, c: char, y: string, sep: string, k: int)
    requires |sep| > 0 && c !in sep && !Contains(x, sep)
    ensures Occurs(x + [c] + y, sep, k) ==> k > |x| && Occurs(y, sep, k - |x| - 1)
  {
    if 0 <= k <= |x| {
      NoOccurrenceBeforeBarrier(x, c, y, sep, k);
    } else if k > |x| {
      OccursShift(x + [c], y, sep, k - |x| - 1);
    }
  }

  /** Two texts free of `sep`, joined by a character outside `sep`, are free of `sep`. */
  lemma NoneAcrossBarrier(x: string, c: char, y: string, sep: string)
    requires |sep| > 0 && c !in sep && !Contains(x, sep) && !Contains(y, sep)
    ensures !Contains(x + [c] + y, sep)
  {
    forall k ensures !Occurs(x + [c] + y, sep, k) {
      OccursAcrossBarrier(x, c, y, sep, k);
    }
  }

  /**
   * `sep` does not occur `m` places into `sep + z` when, `t` places further on,
   * `sep` differs from itself shifted by `m`.
   */
  lemma NoShiftedOccurrence(sep: string, z: string, m: int, t: int)
    requires 0 < m && 0 <= t && m + t < |sep| && sep[m + t] != sep[t]
    ensures !Occurs(sep + z, sep, m)
  {
    if m + |sep| <= |sep + z| {
      assert (sep + z)[m..m + |sep|][t] == sep[m + t];
    }
  }

}
