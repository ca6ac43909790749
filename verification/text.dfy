/** String primitives the scraper relies on, written out so that their exact
    behaviour is part of the model: Python's `str.strip()`, `in` on strings,
    `str.replace(old, "")`, `sep.join(...)` and `str.split(sep)`.
 */
module Text {

  datatype Option<+T> = None | Some(value: T)

  /** Python's `str.isspace` for one character: the code points of Unicode
      category Zs or bidirectional class WS, B or S. */
  predicate IsSpace(c: char) {
    || ('\t' <= c <= '\r')
    || ('\U{1C}' <= c <= ' ')
    || c == '\U{85}' || c == '\U{A0}' || c == '\U{1680}'
    || ('\U{2000}' <= c <= '\U{200A}')
    || c == '\U{2028}' || c == '\U{2029}' || c == '\U{202F}' || c == '\U{205F}' || c == '\U{3000}'
  }

  predicate AllSpace(s: string) {
    forall i :: 0 <= i < |s| ==> IsSpace(s[i])
  }

  /** Neither end of `s` is whitespace (the empty string qualifies). */
  predicate IsTrimmed(s: string) {
    s == [] || (!IsSpace(s[0]) && !IsSpace(s[|s| - 1]))
  }

  /** Where `s.lstrip()` cuts: the first position from `i` on that is not
      whitespace, or `|s|`. */
  function SkipSpace(s: string, i: nat): (j: nat)
    requires i <= |s|
    ensures i <= j <= |s|
    decreases |s| - i
  {
    if i < |s| && IsSpace(s[i]) then SkipSpace(s, i + 1) else i
  }

  /** Where `rstrip()` cuts `s[lo..hi]`: `hi` moved back over whitespace. */
  function BackSpace(s: string, lo: nat, hi: nat): (j: nat)
    requires lo <= hi <= |s|
    ensures lo <= j <= hi
    decreases hi
  {
    if lo < hi && IsSpace(s[hi - 1]) then BackSpace(s, lo, hi - 1) else hi
  }

  /** `lstrip()` skips whitespace only, and stops at a character that is not. */
  lemma {:induction false} SkipSpaceStops(s: string, i: nat)
    requires i <= |s|
    ensures forall k :: i <= k < SkipSpace(s, i) ==> IsSpace(s[k])
    ensures SkipSpace(s, i) < |s| ==> !IsSpace(s[SkipSpace(s, i)])
    decreases |s| - i
  {
    if i < |s| && IsSpace(s[i]) {
      SkipSpaceStops(s, i + 1);
    }
  }

  /** `rstrip()` drops whitespace only, and stops after a character that is not. */
  lemma {:induction false} BackSpaceStops(s: string, lo: nat, hi: nat)
    requires lo <= hi <= |s|
    ensures forall k :: BackSpace(s, lo, hi) <= k < hi ==> IsSpace(s[k])
    ensures lo < BackSpace(s, lo, hi) ==> !IsSpace(s[BackSpace(s, lo, hi) - 1])
    decreases hi
  {
    if lo < hi && IsSpace(s[hi - 1]) {
      BackSpaceStops(s, lo, hi - 1);
    }
  }

  /** `s.strip()`: `s` with its leading and trailing whitespace cut off. */
  function Trim(s: string): (r: string)
    ensures IsTrimmed(r)
    ensures |r| <= |s|
  {
    var i := SkipSpace(s, 0);
    var j := BackSpace(s, i, |s|);
    SkipSpaceStops(s, 0);
    BackSpaceStops(s, i, |s|);
    s[i..j]
  }

  /** What `strip()` removes is whitespace, from both ends only: the result is
      a slice of the input with nothing but whitespace around it. */
  lemma TrimIsSlice(s: string)
    ensures var r := Trim(s);
            exists i :: 0 <= i <= |s| - |r| && r == s[i..i + |r|] && AllSpace(s[..i]) && AllSpace(s[i + |r|..])
  {
    var i := SkipSpace(s, 0);
    var j := BackSpace(s, i, |s|);
    SkipSpaceStops(s, 0);
    BackSpaceStops(s, i, |s|);
    assert AllSpace(s[..i]) by {
      forall k | 0 <= k < i
        ensures IsSpace(s[..i][k])
      {
        assert s[..i][k] == s[k];
      }
    }
    assert AllSpace(s[j..]) by {
      forall k | 0 <= k < |s| - j
        ensures IsSpace(s[j..][k])
      {
        assert s[j..][k] == s[j + k];
      }
    }
    assert Trim(s) == s[i..j];
  }

  /** A string that is already stripped is left alone by `strip()`. */
  lemma TrimOfTrimmed(s: string)
    requires IsTrimmed(s)
    ensures Trim(s) == s
  {
    if s != [] {
      assert SkipSpace(s, 0) == 0;
      assert BackSpace(s, 0, |s|) == |s|;
      assert s[0..|s|] == s;
    }
  }

  /** `strip()` is idempotent. */
  lemma TrimIdempotent(s: string)
    ensures Trim(Trim(s)) == Trim(s)
  {
    TrimOfTrimmed(Trim(s));
  }

  /** `s.startswith(p)`. */
  predicate IsPrefix(p: string, s: string) {
    |p| <= |s| && s[..|p|] == p
  }

  /** `s.find(pat)`: the index of the first occurrence of `pat` in `s`. */
  function Find(s: string, pat: string): (r: Option<nat>)
    ensures r.Some? ==> r.value <= |s| && IsPrefix(pat, s[r.value..])
    decreases |s|
  {
    if IsPrefix(pat, s) then Some(0)
    else if s == [] then None
    else
      match Find(s[1..], pat)
      case None => None
      case Some(k) => Some(k + 1)
  }

  /** `Find` reports the first occurrence, and reports none only when there
      is none at any position. */
  lemma {:induction false} FindIsFirst(s: string, pat: string)
    ensures Find(s, pat).Some? ==> forall j :: 0 <= j < Find(s, pat).value ==> !IsPrefix(pat, s[j..])
    ensures Find(s, pat).None? ==> forall j :: 0 <= j <= |s| ==> !IsPrefix(pat, s[j..])
    decreases |s|
  {
    if !IsPrefix(pat, s) && s != [] {
      FindIsFirst(s[1..], pat);
      assert forall j :: 1 <= j <= |s| ==> s[j..] == s[1..][j - 1..];
    }
  }

  /** Python's `pat in s`. */
  predicate Contains(s: string, pat: string) {
    Find(s, pat).Some?
  }

  /** `s.replace(pat, "")`: every occurrence of `pat` found scanning left to
      right, without overlap, is deleted. An empty `pat` leaves `s` unchanged. */
  function RemoveAll(s: string, pat: string): string
    decreases |s|
  {
    if pat == [] then s
    else if IsPrefix(pat, s) then RemoveAll(s[|pat|..], pat)
    else if s == [] then s
    else [s[0]] + RemoveAll(s[1..], pat)
  }

  /** Removal never lengthens the text; it changes it exactly when `pat`
      occurs, and then by at least one whole `pat`. */
  lemma {:induction false} RemoveAllLength(s: string, pat: string)
    ensures |RemoveAll(s, pat)| <= |s|
    ensures pat == [] || !Contains(s, pat) ==> RemoveAll(s, pat) == s
    ensures pat != [] && Contains(s, pat) ==> |RemoveAll(s, pat)| + |pat| <= |s|
    decreases |s|
  {
    if pat != [] && !IsPrefix(pat, s) && s != [] {
      assert Contains(s, pat) == Contains(s[1..], pat);
      RemoveAllLength(s[1..], pat);
    } else if pat != [] && IsPrefix(pat, s) {
      RemoveAllLength(s[|pat|..], pat);
    }
  }

  lemma FindPastFront(s: string, pat: string, k: nat)
    requires !IsPrefix(pat, s) && Find(s, pat) == Some(k)
    ensures s != [] && 1 <= k && Find(s[1..], pat) == Some(k - 1)
  {
  }

  lemma RemoveAllPastFront(s: string, pat: string)
    requires pat != [] && !IsPrefix(pat, s) && s != []
    ensures RemoveAll(s, pat) == [s[0]] + RemoveAll(s[1..], pat)
  {
  }

  lemma RemoveAllFirstAtFront(s: string, pat: string, k: nat)
    requires pat != [] && IsPrefix(pat, s) && Find(s, pat) == Some(k)
    ensures k == 0 && k + |pat| <= |s|
    ensures RemoveAll(s, pat) == s[..k] + RemoveAll(s[k + |pat|..], pat)
  {
    assert k == 0;
    var x := RemoveAll(s[|pat|..], pat);
    assert RemoveAll(s, pat) == x;
    assert s[..0] + x == x;
  }

  /** Removal cuts the first occurrence of `pat`, keeps what stands before
      it, and resumes scanning right after it. */
  lemma {:induction false} RemoveAllAtFirst(s: string, pat: string, k: nat)
    requires pat != [] && Find(s, pat) == Some(k)
    ensures k + |pat| <= |s|
    ensures RemoveAll(s, pat) == s[..k] + RemoveAll(s[k + |pat|..], pat)
    decreases |s|, 1
  {
    if IsPrefix(pat, s) {
      RemoveAllFirstAtFront(s, pat, k);
    } else {
      RemoveAllFirstLater(s, pat, k);
    }
  }

  /** `RemoveAllAtFirst` where `pat` does not start the text. */
  lemma {:induction false} RemoveAllFirstLater(s: string, pat: string, k: nat)
    requires pat != [] && !IsPrefix(pat, s) && Find(s, pat) == Some(k)
    ensures k + |pat| <= |s|
    ensures RemoveAll(s, pat) == s[..k] + RemoveAll(s[k + |pat|..], pat)
    decreases |s|, 0
  {
    FindPastFront(s, pat, k);
    var t := s[1..];
    RemoveAllAtFirst(t, pat, k - 1);
    RemoveAllStep(s, t, pat, k);
  }

  /** The inductive step of `RemoveAllAtFirst`, one character in. */
  lemma RemoveAllStep(s: string, t: string, pat: string, k: nat)
    requires pat != [] && !IsPrefix(pat, s)
    requires s != [] && t == s[1..] && 1 <= k && k - 1 + |pat| <= |t|
    requires RemoveAll(t, pat) == t[..k - 1] + RemoveAll(t[k - 1 + |pat|..], pat)
    ensures RemoveAll(s, pat) == s[..k] + RemoveAll(s[k + |pat|..], pat)
  {
    SliceShift(s, k - 1 + |pat|);
    RemoveAllPastFront(s, pat);
    ConsTake(s, k, RemoveAll(s[k + |pat|..], pat));
  }

  /** The slice algebra of `RemoveAllStep`, kept apart from `RemoveAll`. */
  lemma SliceShift(s: string, j: nat)
    requires s != [] && j <= |s| - 1
    ensures s[1..][j..] == s[j + 1..]
  {
  }

  lemma ConsTake(s: string, k: nat, x: string)
    requires 1 <= k <= |s|
    ensures [s[0]] + (s[1..][..k - 1] + x) == s[..k] + x
  {
    assert [s[0]] + s[1..][..k - 1] == s[..k];
  }

  /** `pat` is found right after a stretch `y` none of whose characters could
      start it. */
  lemma {:induction false} FindAfter(y: string, rest: string, pat: string)
    requires pat != [] && IsPrefix(pat, rest)
    requires forall i :: 0 <= i < |y| ==> y[i] != pat[0]
    ensures Find(y + rest, pat) == Some(|y|)
  {
    if y == [] {
      assert y + rest == rest;
    } else {
      assert !IsPrefix(pat, y + rest) by {
        assert (y + rest)[0] == y[0];
      }
      assert (y + rest)[1..] == y[1..] + rest;
      FindAfter(y[1..], rest, pat);
    }
  }

  /** A leading `pat` is cut and removal goes on with the rest. */
  lemma RemoveAllDropsFront(pat: string, rest: string)
    requires pat != []
    ensures RemoveAll(pat + rest, pat) == RemoveAll(rest, pat)
  {
    assert IsPrefix(pat, pat + rest);
    assert (pat + rest)[|pat|..] == rest;
  }

  /** One occurrence of `pat` after a stretch that cannot start it, and none
      in the tail: removal leaves the stretch and the tail. */
  lemma RemoveAllPastClean(mid: string, pat: string, tail: string)
    requires pat != []
    requires forall i :: 0 <= i < |mid| ==> mid[i] != pat[0]
    requires !Contains(tail, pat)
    ensures RemoveAll(mid + pat + tail, pat) == mid + tail
  {
    var s := mid + pat + tail;
    assert IsPrefix(pat, pat + tail);
    FindAfter(mid, pat + tail, pat);
    AppendAssoc3(mid, pat, tail);
    RemoveAllAtFirst(s, pat, |mid|);
    AroundSlices(mid, pat, tail);
    RemoveAllLength(tail, pat);
  }

  lemma AppendAssoc3(a: string, b: string, c: string)
    ensures a + b + c == a + (b + c)
  {
  }

  lemma AppendAssoc4(a: string, b: string, c: string, d: string)
    ensures a + b + c + d == a + (b + c + d)
  {
  }

  lemma AroundSlices(a: string, b: string, c: string)
    ensures (a + b + c)[..|a|] == a && (a + b + c)[|a| + |b|..] == c
  {
  }

  /** If `pat` only occurs right at the front, removing it leaves the rest. */
  lemma RemoveLeading(pat: string, rest: string)
    requires pat != []
    requires !Contains(rest, pat)
    ensures RemoveAll(pat + rest, pat) == rest
  {
    assert (pat + rest)[|pat|..] == rest;
    RemoveAllLength(rest, pat);
  }

  /** `sep.join(xs)`. */
  function Join(sep: string, xs: seq<string>): string
  {
    if xs == [] then ""
    else if |xs| == 1 then xs[0]
    else xs[0] + sep + Join(sep, xs[1..])
  }

  /** `s.split(c)` for a one-character separator: the pieces between the
      occurrences of `c`; always at least one piece. */
  function Split(s: string, c: char): (r: seq<string>)
    ensures |r| >= 1
    ensures forall i :: 0 <= i < |r| ==> c !in r[i]
  {
    if s == [] then [""]
    else if s[0] == c then [""] + Split(s[1..], c)
    else
      var rest := Split(s[1..], c);
      [[s[0]] + rest[0]] + rest[1..]
  }

  lemma {:induction false} SplitPrefix(x: string, c: char, t: string)
    requires c !in x
    ensures Split(x + t, c) == [x + Split(t, c)[0]] + Split(t, c)[1..]
  {
    if x != [] {
      var st := Split(t, c);
      assert (x + t)[0] == x[0] && x[0] != c;
      assert (x + t)[1..] == x[1..] + t;
      SplitPrefix(x[1..], c, t);
      assert [x[0]] + (x[1..] + st[0]) == x + st[0];
    } else {
      var st := Split(t, c);
      assert x + t == t;
      assert x + st[0] == st[0];
      assert st == [st[0]] + st[1..];
    }
  }

  /** Splitting a joined column on the separator gives the entries back when
      no entry contains the separator. */
  lemma {:induction false} SplitJoin(c: char, xs: seq<string>)
    requires |xs| >= 1
    requires forall i :: 0 <= i < |xs| ==> c !in xs[i]
    ensures Split(Join([c], xs), c) == xs
  {
    if |xs| == 1 {
      SplitPrefix(xs[0], c, "");
      assert xs[0] + "" == xs[0];
    } else {
      var rest := Join([c], xs[1..]);
      assert Join([c], xs) == xs[0] + ([c] + rest);
      SplitPrefix(xs[0], c, [c] + rest);
      assert ([c] + rest)[1..] == rest;
      assert Split([c] + rest, c) == [""] + Split(rest, c);
      assert xs[0] + "" == xs[0];
      SplitJoin(c, xs[1..]);
      assert xs == [xs[0]] + xs[1..];
    }
  }

  /** Joining the pieces of a split restores the string. */
  lemma {:induction false} JoinSplit(c: char, s: string)
    ensures Join([c], Split(s, c)) == s
  {
    if s == [] {
    } else if s[0] == c {
      JoinSplit(c, s[1..]);
      assert s == [c] + s[1..];
    } else {
      var rest := Split(s[1..], c);
      JoinSplit(c, s[1..]);
      if |rest| == 1 {
        assert s == [s[0]] + s[1..];
      } else {
        assert rest == [rest[0]] + rest[1..];
        assert Join([c], rest) == rest[0] + [c] + Join([c], rest[1..]);
        assert s == [s[0]] + s[1..];
      }
    }
  }
}
