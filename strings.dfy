/** The two JavaScript string built-ins the form relies on:
    `String.prototype.trim()` and `split(/\s+/)`, over the whitespace class
    that both of them use (the ECMAScript WhiteSpace and LineTerminator
    code points, which is also what the regular-expression class `\s` matches). */
module Strings {

  /** A character of the JavaScript whitespace class `\s`. */
  predicate IsSpace(c: char) {
    || c == '\t' || c == '\n' || c == '\U{000B}' || c == '\U{000C}' || c == '\r'
    || c == ' ' || c == '\U{00A0}' || c == '\U{1680}'
    || ('\U{2000}' <= c <= '\U{200A}')
    || c == '\U{2028}' || c == '\U{2029}' || c == '\U{202F}' || c == '\U{205F}'
    || c == '\U{3000}' || c == '\U{FEFF}'
  }

  predicate AllSpace(s: string) {
    forall i :: 0 <= i < |s| ==> IsSpace(s[i])
  }

  predicate NoSpace(s: string) {
    forall i :: 0 <= i < |s| ==> !IsSpace(s[i])
  }

  predicate HasSpace(s: string) {
    exists i :: 0 <= i < |s| && IsSpace(s[i])
  }

  /** Neither end of `s` is whitespace (what `trim` leaves behind). */
  predicate IsTrimmed(s: string) {
    s == [] || (!IsSpace(s[0]) && !IsSpace(s[|s| - 1]))
  }

  /** Length of the leading whitespace run. */
  function LeadingSpaces(s: string): (n: nat)
    ensures n <= |s| && AllSpace(s[..n])
    ensures n == |s| || !IsSpace(s[n])
  {
    if s != [] && IsSpace(s[0]) then 1 + LeadingSpaces(s[1..]) else 0
  }

  /** Length of the trailing whitespace run. */
  function TrailingSpaces(s: string): (n: nat)
    ensures n <= |s| && AllSpace(s[|s| - n..])
    ensures n == |s| || !IsSpace(s[|s| - 1 - n])
  {
    if s != [] && IsSpace(s[|s| - 1]) then 1 + TrailingSpaces(s[..|s| - 1]) else 0
  }

  /** `s.trim()`: the result neither starts nor ends with whitespace, and is
      empty only when `s` is all whitespace. */
  function Trim(s: string): (r: string)
    ensures IsTrimmed(r) && |r| <= |s|
    ensures r == [] <==> AllSpace(s)
  {
    var a := LeadingSpaces(s);
    if a == |s| then
      assert s[..a] == s;
      []
    else
      var b := TrailingSpaces(s);
      assert a < |s| - b;
      assert !AllSpace(s) by { assert !IsSpace(s[a]); }
      s[a..|s| - b]
  }

  /** Cutting a sequence twice and gluing the pieces back gives it back. */
  lemma Slices<T>(s: seq<T>, i: nat, j: nat)
    requires i <= j <= |s|
    ensures s == s[..i] + s[i..j] + s[j..]
  {
    assert s[..i] + s[i..j] == s[..j];
  }

  /** What `trim` removes is whitespace at the two ends and nothing else.
      With `IsTrimmed`, this determines `Trim(s)`. */
  lemma TrimRemovesOnlyEnds(s: string)
    ensures exists a, b :: s == a + Trim(s) + b && AllSpace(a) && AllSpace(b)
  {
    var front, back := TrimPieces(s);
    assert s == front + Trim(s) + back && AllSpace(front) && AllSpace(back);
  }

  /** The whitespace `trim` removes in front of and behind its result. */
  lemma TrimPieces(s: string) returns (front: string, back: string)
    ensures s == front + Trim(s) + back && AllSpace(front) && AllSpace(back)
  {
    var a := LeadingSpaces(s);
    if a == |s| {
      assert s[..a] == s;
      front, back := s, [];
      assert Trim(s) == [];
    } else {
      var b := TrailingSpaces(s);
      Slices(s, a, |s| - b);
      front, back := s[..a], s[|s| - b..];
    }
  }

  /** Trimming text that is already trimmed changes nothing. */
  lemma TrimTrimmed(s: string)
    requires IsTrimmed(s)
    ensures Trim(s) == s
  {
    if s != [] {
      assert LeadingSpaces(s) == 0;
      assert TrailingSpaces(s) == 0;
      assert s[0..|s|] == s;
    }
  }

  /** `trim` is idempotent. */
  lemma TrimIdempotent(s: string)
    ensures Trim(Trim(s)) == Trim(s)
  {
    TrimTrimmed(Trim(s));
  }

  /** Length of the leading run of non-whitespace characters. */
  function WordLength(s: string): (n: nat)
    ensures n <= |s| && NoSpace(s[..n])
    ensures n == |s| || IsSpace(s[n])
  {
    if s != [] && !IsSpace(s[0]) then 1 + WordLength(s[1..]) else 0
  }

  /** `s.split(/\s+/)`: the pieces between maximal whitespace runs. A leading
      or trailing run yields an empty first or last piece, and the empty
      string yields one empty piece. */
  function Split(s: string): (parts: seq<string>)
    ensures |parts| >= 1
    ensures forall i :: 0 <= i < |parts| ==> NoSpace(parts[i])
    ensures forall i :: 0 < i < |parts| - 1 ==> parts[i] != []
    ensures s != [] && !IsSpace(s[0]) ==> parts[0] != []
    decreases |s|
  {
    var n := WordLength(s);
    if n == |s| then
      assert s == s[..n];
      [s]
    else
      var rest := s[n..];
      var m := LeadingSpaces(rest);
      assert m >= 1 by { assert IsSpace(rest[0]); }
      [s[..n]] + Split(rest[m..])
  }

  /** `parts[0] + seps[0] + parts[1] + … + seps[k-1] + parts[k]`: pieces
      glued back together with the separators between them. */
  function Interleave(parts: seq<string>, seps: seq<string>): string
    requires |parts| == |seps| + 1
    decreases |seps|
  {
    if seps == [] then parts[0]
    else parts[0] + seps[0] + Interleave(parts[1..], seps[1..])
  }

  /** The pieces of `split` are the text between its whitespace runs, in
      order: gluing them back with those runs gives the input again. */
  lemma {:induction false} SplitJoin(s: string) returns (seps: seq<string>)
    ensures |seps| == |Split(s)| - 1
    ensures AllGaps(seps)
    ensures s == Interleave(Split(s), seps)
    decreases |s|
  {
    if WordLength(s) == |s| {
      SplitNoSpace(s[..|s|]);
      assert s[..|s|] == s;
      seps := [];
    } else {
      var n, k := SplitStep(s);
      var rest := SplitJoin(s[k..]);
      seps := [s[n..k]] + rest;
      JoinStep(s, n, k, Split(s[k..]), rest);
      SpaceRun(s, n, k);
      GapsCons(s[n..k], rest);
    }
  }

  /** Conversely, `split` is the only way to cut `s` into whitespace-free
      pieces separated by non-empty whitespace runs, where only the first and
      the last piece may be empty: the runs are then the maximal ones. */
  lemma {:induction false} SplitUnique(s: string, parts: seq<string>, seps: seq<string>)
    requires |parts| == |seps| + 1
    requires forall i :: 0 <= i < |parts| ==> NoSpace(parts[i])
    requires forall i :: 0 < i < |parts| - 1 ==> parts[i] != []
    requires AllGaps(seps)
    requires s == Interleave(parts, seps)
    ensures Split(s) == parts
    decreases |seps|
  {
    if seps == [] {
      SplitNoSpace(s);
    } else {
      var tail, more := parts[1..], seps[1..];
      var rest := Interleave(tail, more);
      assert s == parts[0] + seps[0] + rest;
      if tail[0] == [] {
        assert |parts| == 2;
        assert rest == [];
      } else {
        InterleaveHead(tail, more);
      }
      SplitFront(s, parts[0], seps[0], rest);
      assert AllGaps(more) by {
        forall i | 0 <= i < |more| ensures more[i] == seps[i + 1] { }
      }
      SplitUnique(rest, tail, more);
      assert parts == [parts[0]] + tail;
    }
  }

  /** Glued pieces start with the first piece's first character. */
  lemma InterleaveHead(parts: seq<string>, seps: seq<string>)
    requires |parts| == |seps| + 1 && parts[0] != []
    ensures Interleave(parts, seps) != [] && Interleave(parts, seps)[0] == parts[0][0]
  {
    if seps != [] {
      var r := Interleave(parts, seps);
      assert r == parts[0] + (seps[0] + Interleave(parts[1..], seps[1..]));
    }
  }

  /** A word, then a whole whitespace run: `split` cuts off exactly the word. */
  lemma SplitFront(s: string, w: string, g: string, rest: string)
    requires s == w + g + rest && NoSpace(w) && g != [] && AllSpace(g)
    requires rest == [] || !IsSpace(rest[0])
    ensures Split(s) == [w] + Split(rest)
  {
    WordLengthOf(w, g + rest);
    assert s == w + (g + rest) && s[..|w|] == w && s[|w|..] == g + rest;
    LeadingSpacesOf(g, rest);
    assert (g + rest)[|g|..] == rest;
  }

  /** A word followed by whitespace: the word is the first `WordLength` characters. */
  lemma {:induction false} WordLengthOf(w: string, after: string)
    requires NoSpace(w) && after != [] && IsSpace(after[0])
    ensures WordLength(w + after) == |w|
    decreases |w|
  {
    if w == [] {
      assert w + after == after;
    } else {
      assert (w + after)[0] == w[0];
      assert (w + after)[1..] == w[1..] + after;
      WordLengthOf(w[1..], after);
    }
  }

  /** A whitespace run followed by a non-whitespace character or the end. */
  lemma {:induction false} LeadingSpacesOf(g: string, rest: string)
    requires AllSpace(g) && (rest == [] || !IsSpace(rest[0]))
    ensures LeadingSpaces(g + rest) == |g|
    decreases |g|
  {
    if g == [] {
      assert g + rest == rest;
    } else {
      assert (g + rest)[0] == g[0];
      assert (g + rest)[1..] == g[1..] + rest;
      LeadingSpacesOf(g[1..], rest);
    }
  }

  /** Every separator is a non-empty whitespace run. */
  predicate AllGaps(seps: seq<string>) {
    forall i :: 0 <= i < |seps| ==> seps[i] != [] && AllSpace(seps[i])
  }

  lemma GapsCons(gap: string, rest: seq<string>)
    requires gap != [] && AllSpace(gap) && AllGaps(rest)
    ensures AllGaps([gap] + rest)
  {
    forall i | 0 < i < |rest| + 1 ensures ([gap] + rest)[i] == rest[i - 1] { }
  }

  /** Gluing the first word and the run after it in front of a glued tail. */
  lemma JoinStep(s: string, n: nat, k: nat, tail: seq<string>, rest: seq<string>)
    requires n <= k <= |s| && |tail| == |rest| + 1
    requires s[k..] == Interleave(tail, rest)
    ensures s == Interleave([s[..n]] + tail, [s[n..k]] + rest)
  {
    assert ([s[..n]] + tail)[1..] == tail;
    assert ([s[n..k]] + rest)[1..] == rest;
    Slices(s, n, k);
  }

  lemma SpaceRun(s: string, n: nat, k: nat)
    requires n <= k <= |s|
    requires forall j :: n <= j < k ==> IsSpace(s[j])
    ensures AllSpace(s[n..k])
  {
    forall j | 0 <= j < k - n ensures IsSpace(s[n..k][j]) { assert s[n..k][j] == s[n + j]; }
  }

  /** A non-whitespace character with whitespace or an end of `t` on both sides. */
  predicate LoneAt(t: string, i: int)
    requires 0 <= i < |t|
  {
    && !IsSpace(t[i])
    && (i == 0 || IsSpace(t[i - 1]))
    && (i == |t| - 1 || IsSpace(t[i + 1]))
  }

  predicate NoLoneChar(t: string) {
    forall i :: 0 <= i < |t| ==> !LoneAt(t, i)
  }

  predicate AllLong(parts: seq<string>) {
    forall i :: 0 <= i < |parts| ==> |parts[i]| >= 2
  }

  /** `split` yields more than one piece exactly when there is whitespace to split on. */
  lemma {:induction false} SplitCount(s: string)
    ensures |Split(s)| >= 2 <==> HasSpace(s)
  {
    var n := WordLength(s);
    if n == |s| {
      assert s == s[..n];
    } else {
      assert IsSpace(s[n]);
    }
  }

  /** The pieces of a string without whitespace are that string alone. */
  lemma {:induction false} SplitNoSpace(s: string)
    requires NoSpace(s)
    ensures Split(s) == [s]
  {
    var n := WordLength(s);
    assert n == |s|;
    assert s[..n] == s;
  }

  /** Inside the first word of `t`, only a one-character word is lone. */
  lemma LoneInFirstWord(t: string, n: nat)
    requires 1 <= n < |t| && NoSpace(t[..n]) && IsSpace(t[n])
    ensures forall i :: 0 <= i < n ==> (LoneAt(t, i) <==> n == 1)
  {
    forall i | 0 <= i < n ensures LoneAt(t, i) <==> n == 1 {
      assert !IsSpace(t[..n][i]);
      if n > 1 {
        if i == 0 { assert !IsSpace(t[..n][1]); } else { assert !IsSpace(t[..n][i - 1]); }
      }
    }
  }

  /** Loneness of a character is unchanged by cutting `t` just after whitespace. */
  lemma LoneAfterSpace(t: string, k: nat)
    requires 1 <= k <= |t| && IsSpace(t[k - 1])
    ensures forall j :: 0 <= j < |t| - k ==> (LoneAt(t, k + j) <==> LoneAt(t[k..], j))
  {
  }

  /** One step of `split` on text that contains whitespace: the first word,
      then the pieces of what follows the first whitespace run. */
  lemma SplitStep(t: string) returns (n: nat, k: nat)
    requires WordLength(t) < |t|
    ensures n == WordLength(t) && n < k <= |t|
    ensures forall j :: n <= j < k ==> IsSpace(t[j])
    ensures k == |t| || !IsSpace(t[k])
    ensures Split(t) == [t[..n]] + Split(t[k..])
  {
    n := WordLength(t);
    var rest := t[n..];
    var m := LeadingSpaces(rest);
    assert m >= 1 by { assert IsSpace(rest[0]); }
    k := n + m;
    assert t[k..] == rest[m..];
    forall j | n <= j < k ensures IsSpace(t[j]) { assert t[j] == rest[..m][j - n]; }
    if k < |t| { assert t[k] == rest[m]; }
  }

  /** A single word is lone-free exactly when it has two or more characters. */
  lemma SingleWordLong(t: string)
    requires t != [] && NoSpace(t)
    ensures NoLoneChar(t) <==> |t| >= 2
  {
    if |t| == 1 {
      assert LoneAt(t, 0);
    } else {
      forall i | 0 <= i < |t| ensures !LoneAt(t, i) {
        if i == 0 { assert !IsSpace(t[1]); } else { assert !IsSpace(t[i - 1]); }
      }
    }
  }

  /** Lone characters of `t` = first word `t[..n]`, a whitespace run, then `t[k..]`. */
  lemma LoneSplit(t: string, n: nat, k: nat)
    requires 1 <= n < k < |t| && NoSpace(t[..n])
    requires forall j :: n <= j < k ==> IsSpace(t[j])
    ensures NoLoneChar(t) <==> n >= 2 && NoLoneChar(t[k..])
  {
    LoneInFirstWord(t, n);
    LoneAfterSpace(t, k);
    var u := t[k..];
    if n == 1 {
      assert LoneAt(t, 0);
    } else if NoLoneChar(u) {
      forall i | 0 <= i < |t| ensures !LoneAt(t, i) {
        if i >= k { assert !LoneAt(u, i - k); }
      }
    } else {
      var j :| 0 <= j < |u| && LoneAt(u, j);
      assert LoneAt(t, k + j);
    }
  }

  /** A first piece in front of other pieces: all are long exactly when the
      first one and the others are. */
  lemma AllLongCons(w: string, parts: seq<string>)
    ensures AllLong([w] + parts) <==> |w| >= 2 && AllLong(parts)
  {
    var all := [w] + parts;
    assert all[0] == w;
    assert forall j :: 0 <= j < |parts| ==> all[j + 1] == parts[j];
    if |w| >= 2 && AllLong(parts) {
      forall i | 0 < i < |all| ensures |all[i]| >= 2 {
        assert all[i] == parts[i - 1];
      }
    }
  }

  /** For trimmed, non-empty text, every piece has at least two characters
      exactly when no non-whitespace character stands alone. */
  lemma {:induction false} SplitAllLong(t: string)
    requires t != [] && IsTrimmed(t)
    ensures AllLong(Split(t)) <==> NoLoneChar(t)
    decreases |t|
  {
    if WordLength(t) == |t| {
      assert t[..|t|] == t;
      SplitNoSpace(t);
      SingleWordLong(t);
      assert Split(t)[0] == t;
    } else {
      var n, k := SplitStep(t);
      assert n >= 1 by { assert !IsSpace(t[0]); }
      assert k < |t|;
      var u := t[k..];
      var parts := Split(u);
      assert IsTrimmed(u) by { assert u[|u| - 1] == t[|t| - 1]; }
      SplitAllLong(u);
      AllLongCons(t[..n], parts);
      LoneSplit(t, n, k);
    }
  }
}
