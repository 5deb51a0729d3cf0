/**
  Model of str.c: C strings are sequences of characters without the
  terminating NUL.  strstr is the leftmost-match search FindFrom, and isspace
  is the whitespace set of the C locale.
*/
module Str {
  import opened Wrappers

  function Min(a: nat, b: nat): nat
  {
    if a < b then a else b
  }

  /**
    str_splice: the characters of s from start up to end.  strncpy stops at the
    end of s, so an end beyond it is cut there; start must lie within s.
  */
  function Splice(s: string, start: nat, end: nat): (r: string)
    requires start <= end && start <= |s|
    ensures |r| == Min(end, |s|) - start
    ensures forall i :: 0 <= i < |r| ==> r[i] == s[start + i]
    ensures end <= |s| ==> |r| == end - start
  {
    s[start..Min(end, |s|)]
  }

  /** The tokens interleaved with the delimiter. */
  function Joined(ts: seq<string>, d: string): string
  {
    if |ts| == 0 then "" else if |ts| == 1 then ts[0] else ts[0] + d + Joined(ts[1..], d)
  }

  /** Appending a token puts one more delimiter in front of it. */
  lemma {:induction false} JoinedSnoc(ts: seq<string>, t: string, d: string)
    ensures Joined(ts + [t], d) == if ts == [] then t else Joined(ts, d) + d + t
  {
    if |ts| >= 2 {
      assert (ts + [t])[1..] == ts[1..] + [t];
      JoinedSnoc(ts[1..], t, d);
    } else if |ts| == 1 {
      assert (ts + [t])[1..] == [t];
    }
  }

  /** The total length of the tokens. */
  function TotalLength(ts: seq<string>): nat
  {
    if ts == [] then 0 else |ts[0]| + TotalLength(ts[1..])
  }

  /** The joined length of n >= 1 tokens is the sum of their lengths plus (n-1) delimiters. */
  lemma {:induction false} JoinedLength(ts: seq<string>, d: string)
    requires |ts| >= 1
    ensures |Joined(ts, d)| == TotalLength(ts) + (|ts| - 1) * |d|
  {
    if |ts| >= 2 {
      JoinedLength(ts[1..], d);
    }
  }

  /** str_join: every token, with the delimiter before each one but the first. */
  method Join(ts: seq<string>, d: string) returns (acc: string)
    ensures acc == Joined(ts, d)
  {
    acc := "";
    for i := 0 to |ts|
      invariant acc == Joined(ts[..i], d)
    {
      if i > 0 {
        acc := acc + d;
      }
      acc := acc + ts[i];
      assert ts[..i + 1] == ts[..i] + [ts[i]];
      JoinedSnoc(ts[..i], ts[i], d);
    }
    assert ts[..|ts|] == ts;
  }

  /** d occurs in s at index m. */
  predicate MatchAt(s: string, d: string, m: nat)
  {
    m + |d| <= |s| && s[m..m + |d|] == d
  }

  /** d occurs somewhere in s. */
  predicate Contains(s: string, d: string)
  {
    exists m: nat | m <= |s| :: MatchAt(s, d, m)
  }

  /** strstr(s + p, d): the leftmost occurrence of d at or after p. */
  function FindFrom(s: string, d: string, p: nat): (r: Option<nat>)
    requires p <= |s|
    ensures r.Some? ==> p <= r.value && r.value + |d| <= |s|
    decreases |s| - p
  {
    if p + |d| > |s| then None
    else if s[p..p + |d|] == d then Some(p)
    else if p == |s| then None
    else FindFrom(s, d, p + 1)
  }

  /** FindFrom finds an occurrence at or after p with none before it, or reports that there is none. */
  lemma {:induction false} FindFromSpec(s: string, d: string, p: nat)
    requires p <= |s|
    ensures var r := FindFrom(s, d, p);
      && (r.Some? ==> p <= r.value && MatchAt(s, d, r.value))
      && (r.Some? ==> forall q :: p <= q < r.value ==> !MatchAt(s, d, q))
      && (r.None? ==> forall q :: p <= q ==> !MatchAt(s, d, q))
    decreases |s| - p
  {
    if p + |d| <= |s| && s[p..p + |d|] != d && p < |s| {
      FindFromSpec(s, d, p + 1);
      assert !MatchAt(s, d, p);
    }
  }

  /** The tokens of s[p..] cut at each leftmost occurrence of the non-empty d. */
  function SplitFrom(s: string, d: string, p: nat): (ts: seq<string>)
    requires |d| > 0 && p <= |s|
    ensures |ts| >= 1
    decreases |s| - p
  {
    match FindFrom(s, d, p)
    case None => [s[p..]]
    case Some(m) => [s[p..m]] + SplitFrom(s, d, m + |d|)
  }

  /** One cut of SplitFrom: either no occurrence is left, or the first token ends at the next one. */
  lemma SplitFromStep(s: string, d: string, p: nat)
    requires |d| > 0 && p <= |s|
    ensures var r := FindFrom(s, d, p);
      && (r.None? ==> SplitFrom(s, d, p) == [s[p..]])
      && (r.Some? ==> p <= r.value < |s| && r.value + |d| <= |s|)
      && (r.Some? ==> SplitFrom(s, d, p) == [s[p..r.value]] + SplitFrom(s, d, r.value + |d|))
  {
    FindFromSpec(s, d, p);
  }

  /**
    One round of str_split's loop: the token up to the next occurrence (or
    the end) joins the tokens so far, and the rest is split from after it.
  */
  lemma SplitLoopStep(s: string, d: string, p: nat, ts: seq<string>, all: seq<string>)
    requires |d| > 0 && p <= |s| && ts + SplitFrom(s, d, p) == all
    ensures var r := FindFrom(s, d, p);
      && (r.None? ==> ts + [s[p..|s|]] == all)
      && (r.Some? ==> r.value < |s| && r.value + |d| <= |s| && (ts + [s[p..r.value]]) + SplitFrom(s, d, r.value + |d|) == all)
  {
    SplitFromStep(s, d, p);
    var r := FindFrom(s, d, p);
    if r.None? {
      assert s[p..|s|] == s[p..];
    } else {
      var more := SplitFrom(s, d, r.value + |d|);
      assert (ts + [s[p..r.value]]) + more == ts + ([s[p..r.value]] + more);
    }
  }

  /** The state after one round of str_split's loop, from the state before it. */
  lemma SplitAdvance(s: string, d: string, p: nat, before: seq<string>, all: seq<string>, curr: nat, token: string,
                     ts: seq<string>, next: nat)
    requires |d| > 0 && p <= |s| && before + SplitFrom(s, d, p) == all
    requires curr == if FindFrom(s, d, p).None? then |s| else FindFrom(s, d, p).value
    requires p <= curr && token == Splice(s, p, curr) && ts == before + [token] && next == curr + |d|
    ensures curr < |s| ==> next <= |s| && ts + SplitFrom(s, d, next) == all
    ensures curr >= |s| ==> ts == all
  {
    SplitLoopStep(s, d, p, before, all);
    assert token == s[p..curr];
  }

  /**
    The tokens str_split produces: none for "", the whole of s for an empty
    delimiter, and otherwise the pieces between leftmost occurrences of d.
  */
  function Tokens(s: string, d: string): seq<string>
  {
    if |s| == 0 then []
    else if |d| == 0 then [s]
    else SplitFrom(s, d, 0)
  }

  /** str_split: walk the string from one leftmost match of d to the next. */
  method Split(s: string, d: string) returns (ts: seq<string>)
    ensures ts == Tokens(s, d)
  {
    ts := [];
    if |d| == 0 {
      if |s| > 0 {
        ts := [s];
      }
      return;
    }
    ghost var all := Tokens(s, d);
    var prevIndex: nat := 0;
    var currIndex: nat := 0;
    while currIndex < |s|
      invariant currIndex < |s| ==> prevIndex <= |s| && ts + SplitFrom(s, d, prevIndex) == all
      invariant currIndex >= |s| ==> ts == all
      decreases |s| + |d| - prevIndex
    {
      var found := FindFrom(s, d, prevIndex);
      FindFromSpec(s, d, prevIndex);
      if found.None? {
        currIndex := |s|;
      } else {
        currIndex := found.value;
      }
      ghost var p, before := prevIndex, ts;
      var token := Splice(s, prevIndex, currIndex);
      ts := ts + [token];
      prevIndex := currIndex + |d|;
      SplitAdvance(s, d, p, before, all, currIndex, token, ts, prevIndex);
    }
  }

  /** Splitting and joining back with the same delimiter gives the original string. */
  lemma JoinSplit(s: string, d: string)
    ensures Joined(Tokens(s, d), d) == s
  {
    if |s| > 0 && |d| > 0 {
      JoinSplitFrom(s, d, 0);
    }
  }

  lemma {:induction false} JoinSplitFrom(s: string, d: string, p: nat)
    requires |d| > 0 && p <= |s|
    ensures Joined(SplitFrom(s, d, p), d) == s[p..]
    decreases |s| - p
  {
    FindFromSpec(s, d, p);
    match FindFrom(s, d, p)
    case None =>
    case Some(m) =>
      var rest := SplitFrom(s, d, m + |d|);
      JoinSplitFrom(s, d, m + |d|);
      assert SplitFrom(s, d, p)[1..] == rest;
      assert MatchAt(s, d, m);
      assert s[m..] == s[m..m + |d|] + s[m + |d|..];
      assert s[p..] == s[p..m] + s[m..];
  }

  /** With a non-empty delimiter, no token contains it. */
  lemma NoTokenContainsDelimiter(s: string, d: string, t: string)
    requires |d| > 0 && t in Tokens(s, d)
    ensures !Contains(t, d)
  {
    NoTokenContainsDelimiterFrom(s, d, 0, t);
  }

  /** An occurrence inside a piece of s is an occurrence in s. */
  lemma MatchInSlice(s: string, d: string, p: nat, q: nat, i: nat)
    requires p <= q <= |s| && MatchAt(s[p..q], d, i)
    ensures MatchAt(s, d, p + i)
  {
    forall k | 0 <= k < |d|
      ensures s[p + i..p + i + |d|][k] == d[k]
    {
      assert s[p..q][i..i + |d|][k] == s[p..q][i + k];
    }
  }

  lemma {:induction false} NoTokenContainsDelimiterFrom(s: string, d: string, p: nat, t: string)
    requires |d| > 0 && p <= |s| && t in SplitFrom(s, d, p)
    ensures !Contains(t, d)
    decreases |s| - p
  {
    FindFromSpec(s, d, p);
    match FindFrom(s, d, p)
    case None =>
      assert t == s[p..|s|];
      if Contains(t, d) {
        var i: nat :| i <= |t| && MatchAt(t, d, i);
        MatchInSlice(s, d, p, |s|, i);
      }
    case Some(m) =>
      if t == s[p..m] {
        if Contains(t, d) {
          var i: nat :| i <= |t| && MatchAt(t, d, i);
          MatchInSlice(s, d, p, m, i);
        }
      } else {
        NoTokenContainsDelimiterFrom(s, d, m + |d|, t);
      }
  }

  /** A non-empty string without the delimiter is its own single token. */
  lemma SplitWithoutDelimiter(s: string, d: string)
    requires |s| > 0 && |d| > 0 && !Contains(s, d)
    ensures Tokens(s, d) == [s]
  {
    FindFromSpec(s, d, 0);
  }

  /** str_splitlines: the lines of s, cut at each newline. */
  function SplitLines(s: string): (ls: seq<string>)
    ensures ls == Tokens(s, "\n")
    ensures Joined(ls, "\n") == s
    ensures forall l :: l in ls ==> !Contains(l, "\n")
  {
    JoinSplit(s, "\n");
    forall l | l in Tokens(s, "\n")
      ensures !Contains(l, "\n")
    {
      NoTokenContainsDelimiter(s, "\n", l);
    }
    Tokens(s, "\n")
  }

  /** str_replace: every leftmost occurrence of a in s becomes b. */
  function Replace(s: string, a: string, b: string): (r: string)
    ensures r == Joined(Tokens(s, a), b)
    ensures |s| == 0 || |a| == 0 ==> r == s
    ensures |a| > 0 && !Contains(s, a) ==> r == s
    ensures a == b ==> r == s
  {
    JoinSplit(s, a);
    if |s| > 0 && |a| > 0 && !Contains(s, a) then
      SplitWithoutDelimiter(s, a);
      Joined(Tokens(s, a), b)
    else
      Joined(Tokens(s, a), b)
  }

  /** isspace in the C locale: space, \t, \n, \v, \f and \r. */
  predicate IsSpace(c: char)
  {
    c == ' ' || c == '\t' || c == '\n' || c == '\r' || c as int == 11 || c as int == 12
  }

  /** The first index at or after p that is not whitespace (or |s|): the first loop of str_strip. */
  function LeadingEnd(s: string, p: nat): (r: nat)
    requires p <= |s|
    ensures p <= r <= |s|
    ensures forall k :: p <= k < r ==> IsSpace(s[k])
    ensures r < |s| ==> !IsSpace(s[r])
    decreases |s| - p
  {
    if p < |s| && IsSpace(s[p]) then LeadingEnd(s, p + 1) else p
  }

  /** The least index e' in [start, e] with only whitespace in s[e'..e]: the second loop. */
  function TrailingStart(s: string, start: nat, e: nat): (r: nat)
    requires start <= e <= |s|
    ensures start <= r <= e
    ensures forall k :: r <= k < e ==> IsSpace(s[k])
    ensures r > start ==> !IsSpace(s[r - 1])
    decreases e
  {
    if e > start && IsSpace(s[e - 1]) then TrailingStart(s, start, e - 1) else e
  }

  /** s without its leading and trailing whitespace. */
  function Stripped(s: string): string
  {
    var i := LeadingEnd(s, 0);
    s[i..TrailingStart(s, i, |s|)]
  }

  /** str_strip: skip whitespace from the front, then from the back, and copy what is left. */
  method Strip(s: string) returns (r: string)
    ensures r == Stripped(s)
  {
    var start := 0;
    while start < |s| && IsSpace(s[start])
      invariant start <= |s|
      invariant LeadingEnd(s, start) == LeadingEnd(s, 0)
    {
      start := start + 1;
    }
    var end := |s|;
    while end > start && IsSpace(s[end - 1])
      invariant start <= end <= |s|
      invariant TrailingStart(s, start, end) == TrailingStart(s, start, |s|)
    {
      end := end - 1;
    }
    r := Splice(s, start, end);
  }

  /**
    The stripped string is the piece between the leading and the trailing
    whitespace of s: everything before and after it is whitespace, and it
    neither starts nor ends with whitespace.
  */
  lemma StrippedIsSlice(s: string)
    ensures var i := LeadingEnd(s, 0); var j := TrailingStart(s, i, |s|);
      && Stripped(s) == s[i..j]
      && (forall k :: 0 <= k < i ==> IsSpace(s[k]))
      && (forall k :: j <= k < |s| ==> IsSpace(s[k]))
    ensures Stripped(s) != [] ==> !IsSpace(Stripped(s)[0]) && !IsSpace(Stripped(s)[|Stripped(s)| - 1])
  {
  }

  /** A string made of whitespace only strips to "". */
  lemma StripAllSpace(s: string)
    requires forall k :: 0 <= k < |s| ==> IsSpace(s[k])
    ensures Stripped(s) == ""
  {
  }

  /** Stripping twice is stripping once. */
  lemma StripIdempotent(s: string)
    ensures Stripped(Stripped(s)) == Stripped(s)
  {
    var t := Stripped(s);
    StrippedIsSlice(s);
    if t != [] {
      assert LeadingEnd(t, 0) == 0;
      assert TrailingStart(t, 0, |t|) == |t|;
    } else {
      assert LeadingEnd(t, 0) == 0;
    }
  }
}
