/** src/strutils.c: str_sep, which cuts a string in memory into tokens, and str_sep_count, which counts them. */
module Tokenizers {
  import opened Basics

  // ---------------------------------------------------------------------------
  // The tokens of a text
  // ---------------------------------------------------------------------------

  /** The first position from i on that is not a separator, or the end. */
  function Skip(text: string, sep: string, i: nat): (a: nat)
    requires i <= |text|
    ensures i <= a <= |text| && (a < |text| ==> text[a] !in sep)
    ensures forall j {:trigger text[j]} :: i <= j < a ==> text[j] in sep
    decreases |text| - i
  {
    if i < |text| && text[i] in sep then Skip(text, sep, i + 1) else i
  }

  /** The first position from i on that is a separator, or the end. */
  function Stop(text: string, sep: string, i: nat): (b: nat)
    requires i <= |text|
    ensures i <= b <= |text| && (b < |text| ==> text[b] in sep)
    ensures forall j {:trigger text[j]} :: i <= j < b ==> text[j] !in sep
    decreases |text| - i
  {
    if i < |text| && text[i] !in sep then Stop(text, sep, i + 1) else i
  }

  /** Where a token starts and ends. */
  datatype Run = Run(start: nat, end: nat)

  /** The tokens of the text from i on. */
  function Runs(text: string, sep: string, i: nat): seq<Run>
    requires i <= |text|
    decreases |text| - i
  {
    var a := Skip(text, sep, i);
    if a == |text| then [] else
      var b := Stop(text, sep, a);
      [Run(a, b)] + Runs(text, sep, b)
  }

  /** A stretch without separators that cannot be made longer within the text from i on. */
  ghost predicate IsRun(text: string, sep: string, i: nat, a: nat, b: nat) {
    && i <= a < b <= |text|
    && (forall j {:trigger text[j]} :: a <= j < b ==> text[j] !in sep)
    && (a == i || text[a - 1] in sep) && (b == |text| || text[b] in sep)
  }

  lemma SkipIs(text: string, sep: string, i: nat, a: nat)
    requires i <= a <= |text| && (forall j :: i <= j < a ==> text[j] in sep) && (a < |text| ==> text[a] !in sep)
    ensures Skip(text, sep, i) == a
  {
  }

  lemma StopIs(text: string, sep: string, i: nat, b: nat)
    requires i <= b <= |text| && (forall j :: i <= j < b ==> text[j] !in sep) && (b < |text| ==> text[b] in sep)
    ensures Stop(text, sep, i) == b
  {
  }

  /** Starting after a separator instead of at it makes no difference. */
  lemma RunsAfter(text: string, sep: string, i: nat)
    requires i < |text| && text[i] in sep
    ensures Runs(text, sep, i) == Runs(text, sep, i + 1)
  {
  }

  /** A maximal stretch is the first token, or comes after it. */
  lemma FirstRun(text: string, sep: string, i: nat, a: nat, b: nat)
    requires i <= |text| && IsRun(text, sep, i, a, b)
    ensures var s := Skip(text, sep, i); var e := Stop(text, sep, s);
      (a == s && b == e) || (a > e && IsRun(text, sep, e, a, b))
  {
    var s := Skip(text, sep, i);
    var e := Stop(text, sep, s);
    assert text[a] !in sep;
    if a > s {
      assert text[a - 1] in sep;
    }
  }

  /** The tokens are exactly the maximal stretches without separators, each once, from left to right. */
  lemma {:induction false} RunsExactly(text: string, sep: string, i: nat, a: nat, b: nat)
    requires i <= |text|
    ensures Run(a, b) in Runs(text, sep, i) <==> IsRun(text, sep, i, a, b)
    decreases |text| - i
  {
    var s := Skip(text, sep, i);
    assert IsRun(text, sep, i, a, b) ==> text[a] !in sep;
    if s < |text| {
      var e := Stop(text, sep, s);
      RunsExactly(text, sep, e, a, b);
      assert Runs(text, sep, i) == [Run(s, e)] + Runs(text, sep, e);
      if IsRun(text, sep, i, a, b) {
        FirstRun(text, sep, i, a, b);
      }
      if IsRun(text, sep, e, a, b) {
        assert a != e;
      }
    }
  }

  /** The tokens come from left to right, separated. */
  lemma {:induction false} RunsInOrder(text: string, sep: string, i: nat, j: nat, k: nat)
    requires i <= |text| && j < k < |Runs(text, sep, i)|
    ensures Runs(text, sep, i)[j].end < Runs(text, sep, i)[k].start
    decreases |text| - i
  {
    var e := Stop(text, sep, Skip(text, sep, i));
    var rest := Runs(text, sep, e);
    if j > 0 {
      RunsInOrder(text, sep, e, j - 1, k - 1);
    } else {
      var Run(a, b) := rest[k - 1];
      assert Run(a, b) in rest;
      RunsExactly(text, sep, e, a, b);
      assert text[a] !in sep;
    }
  }

  // ---------------------------------------------------------------------------
  // In memory
  // ---------------------------------------------------------------------------

  /** A string in memory from p on that ends at n. */
  ghost predicate CString(m: string, p: nat, n: nat) {
    p <= n < |m| && m[n] == '\0' && forall i {:trigger m[i]} :: p <= i < n ==> m[i] != '\0'
  }

  /** What one call leaves behind: the caller's new position, the token, and the memory. */
  datatype Outcome = Outcome(next: Option<nat>, token: Option<nat>, memory: string)

  /** What str_sep does to a string at p that ends at n. */
  ghost function StrSepAt(m: string, p: nat, n: nat, sep: string): Outcome
    requires CString(m, p, n)
  {
    var a := Skip(m[..n], sep, p);
    var b := Stop(m[..n], sep, a);
    Outcome(Some(if b < n then b + 1 else n), Some(a), m[b := '\0'])
  }

  /** str_sep: where the caller goes on, and the token. */
  method StrSep(buf: array<char>, str: Option<nat>, sep: string, ghost n: nat)
      returns (next: Option<nat>, token: Option<nat>)
    requires str != None ==> CString(buf[..], str.value, n)
    modifies buf
    ensures Outcome(next, token, buf[..]) ==
            if str == None then Outcome(None, None, old(buf[..])) else StrSepAt(old(buf[..]), str.value, n, sep)
  {
    if str == None || buf[str.value] == '\0' {
      return str, str;
    }
    ghost var text := buf[..n];
    var start := str.value;
    while buf[start] != '\0' && buf[start] in sep
      invariant str.value <= start <= n && forall j :: str.value <= j < start ==> text[j] in sep
      decreases n - start
    {
      start := start + 1;
    }
    var end := start;
    while buf[end] != '\0' && buf[end] !in sep
      invariant start <= end <= n && forall j :: start <= j < end ==> text[j] !in sep
      decreases n - end
    {
      end := end + 1;
    }
    SkipIs(text, sep, str.value, start);
    StopIs(text, sep, start, end);
    if buf[end] != '\0' {
      buf[end] := '\0';
      end := end + 1;
    }
    return Some(end), Some(start);
  }

  // ---------------------------------------------------------------------------
  // Against strsep
  // ---------------------------------------------------------------------------

  /** What strsep does to it: the token starts at once, and the caller gets NULL when no separator is left. */
  ghost function StrsepAt(m: string, p: nat, n: nat, sep: string): Outcome
    requires CString(m, p, n)
  {
    var b := Stop(m[..n], sep, p);
    Outcome(if b < n then Some(b + 1) else None, Some(p), m[b := '\0'])
  }

  ghost predicate StartsWithSeparator(m: string, p: nat, n: nat, sep: string)
    requires CString(m, p, n)
  {
    m[p] in sep && p < n
  }

  ghost predicate HasSeparator(m: string, p: nat, n: nat, sep: string)
    requires CString(m, p, n)
  {
    exists j :: p <= j < n && m[j] in sep
  }

  lemma StopBeforeEnd(m: string, p: nat, n: nat, sep: string)
    requires CString(m, p, n)
    ensures Stop(m[..n], sep, p) < n <==> HasSeparator(m, p, n, sep)
  {
    var text := m[..n];
    var b := Stop(text, sep, p);
    if b < n {
      assert m[b] in sep;
    }
    if j :| p <= j < n && m[j] in sep {
      assert text[j] in sep;
    }
  }

  lemma NoLeadingSeparator(m: string, p: nat, n: nat, sep: string)
    requires CString(m, p, n)
    ensures !StartsWithSeparator(m, p, n, sep) ==> Skip(m[..n], sep, p) == p
    ensures StartsWithSeparator(m, p, n, sep) ==> Skip(m[..n], sep, p) > p && Stop(m[..n], sep, p) == p
  {
    assert p < n ==> m[..n][p] == m[p];
  }

  /**
   * When one call of str_sep and one of strsep agree. The token, and so the memory, agree exactly when the string
   * does not start with a separator; then the position agrees exactly when a separator is left. Otherwise the
   * position agrees for a string of one separator only.
   */
  lemma StrsepExactly(m: string, p: nat, n: nat, sep: string)
    requires CString(m, p, n)
    ensures var x, y := StrSepAt(m, p, n, sep), StrsepAt(m, p, n, sep);
      && (x.token == y.token <==> !StartsWithSeparator(m, p, n, sep))
      && (x.memory == y.memory <==> !StartsWithSeparator(m, p, n, sep))
      && (x.next == y.next <==> if StartsWithSeparator(m, p, n, sep) then n == p + 1 else HasSeparator(m, p, n, sep))
      && (x == y <==> !StartsWithSeparator(m, p, n, sep) && HasSeparator(m, p, n, sep))
  {
    var x, y := StrSepAt(m, p, n, sep), StrsepAt(m, p, n, sep);
    NoLeadingSeparator(m, p, n, sep);
    StopBeforeEnd(m, p, n, sep);
    if StartsWithSeparator(m, p, n, sep) {
      assert x.memory[p] == m[p] != '\0' && y.memory[p] == '\0';
    }
  }

  lemma RunsFrom(text: string, sep: string, i: nat)
    requires i <= |text|
    ensures Skip(text, sep, i) == |text| ==> Runs(text, sep, i) == []
    ensures var a := Skip(text, sep, i);
      a < |text| ==> |Runs(text, sep, i)| == 1 + |Runs(text, sep, Stop(text, sep, a))|
  {
  }

  /** str_sep_count */
  method StrSepCount(m: string, str: Option<nat>, sep: Option<string>, ghost n: nat) returns (count: nat)
    requires str != None ==> CString(m, str.value, n)
    ensures count == if str == None || str.value == n then 0
                     else if sep == None then 1
                     else |Runs(m[..n], sep.value, str.value)|
  {
    hide Runs, Skip, Stop;
    count := 0;
    if str == None || m[str.value] == '\0' {
      return 0;
    }
    if sep == None {
      return 1;
    }
    ghost var text := m[..n];
    var p := str.value;
    while m[p] != '\0'
      invariant str.value <= p <= n
      invariant count + |Runs(text, sep.value, p)| == |Runs(text, sep.value, str.value)|
      decreases n - p
    {
      ghost var from := p;
      while m[p] != '\0' && m[p] in sep.value
        invariant from <= p <= n && forall j :: from <= j < p ==> text[j] in sep.value
        decreases n - p
      {
        p := p + 1;
      }
      SkipIs(text, sep.value, from, p);
      RunsFrom(text, sep.value, from);
      if m[p] == '\0' {
        break;
      }
      count := count + 1;
      ghost var token := p;
      while m[p] != '\0' && m[p] !in sep.value
        invariant token <= p <= n && (p == token ==> p < n) && forall j :: token <= j < p ==> text[j] !in sep.value
        decreases n - p
      {
        p := p + 1;
      }
      StopIs(text, sep.value, token, p);
    }
    RunsFrom(text, sep.value, n);
  }

  /** The token found at (a, b) of the original text is a terminated string in memory. */
  ghost predicate Cut(m: string, text: string, run: Run) {
    run.start <= run.end <= |text| && run.end < |m| && m[run.start..run.end] == text[run.start..run.end]
        && m[run.end] == '\0'
  }

  /** The first token from i on, empty if there is none. */
  function NextRun(text: string, sep: string, i: nat): (r: Run)
    requires i <= |text|
    ensures i <= r.start <= r.end <= |text| && (r.start < |text| ==> r.start < r.end)
  {
    var a := Skip(text, sep, i);
    Run(a, Stop(text, sep, a))
  }

  /** The tokens from this one on. */
  function From(text: string, sep: string, run: Run): seq<Run>
    requires run.end <= |text|
  {
    if run.start < run.end then [run] + Runs(text, sep, run.end) else []
  }

  /** What str_sep has left in memory when it returned `run`, and where the caller goes on. */
  ghost predicate Returned(m: string, text: string, cur: nat, run: Run) {
    && |text| < |m| && m[|text|] == '\0' && cur <= |text| && m[cur..|text|] == text[cur..]
    && run.start <= run.end <= |text| && cur == (if run.end < |text| then run.end + 1 else |text|)
    && (run.start < |text| ==> run.start < run.end) && Cut(m, text, run)
  }

  /** str_sep sees the rest of the original text, whatever it has written in front of it. */
  lemma SameNextRun(m: string, text: string, sep: string, i: nat)
    requires i <= |text| <= |m| && m[i..|text|] == text[i..]
    ensures NextRun(m[..|text|], sep, i) == NextRun(text, sep, i)
  {
    var n := |text|;
    var r := NextRun(text, sep, i);
    assert forall j {:trigger m[j]} :: i <= j < n ==> m[j] == m[i..n][j - i] == text[i..][j - i] == text[j];
    SkipIs(m[..n], sep, i, r.start);
    StopIs(m[..n], sep, r.start, r.end);
  }

  lemma ReturnedMeans(m: string, text: string, cur: nat, run: Run)
    requires Returned(m, text, cur, run)
    ensures |text| < |m| && m[|text|] == '\0' && run.end <= cur <= |text|
    ensures m[cur..|text|] == text[cur..] && Cut(m, text, run)
    ensures cur == if run.end < |text| then run.end + 1 else |text|
    ensures run.start < run.end ==> run.start < cur
  {
  }

  lemma CutKept(m: string, text: string, run: Run, at: nat)
    requires Cut(m, text, run) && run.end <= at < |m|
    ensures Cut(m[at := '\0'], text, run)
  {
  }

  lemma FirstReturned(m: string, text: string, sep: string, p: nat)
    requires |text| < |m| && m[..|text|] == text && m[|text|] == '\0' && p <= |text|
    ensures var next := NextRun(text, sep, p);
      && Returned(m[next.end := '\0'], text, if next.end < |text| then next.end + 1 else |text|, next)
      && From(text, sep, next) == Runs(text, sep, p)
      && (next.end < |text| ==> text[next.end] in sep)
  {
  }

  /** The next call: its token, the tokens after it, and what it leaves in memory. */
  lemma ReturnedNext(m: string, text: string, sep: string, cur: nat, run: Run)
    requires Returned(m, text, cur, run) && run.start < run.end && (run.end < |text| ==> text[run.end] in sep)
    ensures var next := NextRun(text, sep, cur);
      && Returned(m[next.end := '\0'], text, if next.end < |text| then next.end + 1 else |text|, next)
      && From(text, sep, next) == Runs(text, sep, run.end)
      && (next.end < |text| ==> text[next.end] in sep)
  {
    hide *;
    ReturnedMeans(m, text, cur, run);
    var next := NextRun(text, sep, cur);
    RunsFromNext(text, sep, cur);
    if run.end < |text| {
      RunsAfter(text, sep, run.end);
    }
    LeavesReturned(m, text, cur, next);
  }

  lemma RunsFromNext(text: string, sep: string, i: nat)
    requires i <= |text|
    ensures From(text, sep, NextRun(text, sep, i)) == Runs(text, sep, i)
    ensures var r := NextRun(text, sep, i); r.end < |text| ==> text[r.end] in sep
  {
  }

  lemma LeavesReturned(m: string, text: string, cur: nat, next: Run)
    requires |text| < |m| && m[|text|] == '\0' && cur <= |text| && m[cur..|text|] == text[cur..]
    requires cur <= next.start <= next.end <= |text| && (next.start < |text| ==> next.start < next.end)
    ensures Returned(m[next.end := '\0'], text, if next.end < |text| then next.end + 1 else |text|, next)
  {
    assert forall j {:trigger text[j]} :: cur <= j < |text| ==>
        m[j] == m[cur..|text|][j - cur] == text[cur..][j - cur] == text[j];
  }

  /** A token is empty in memory only at the end of the string. */
  lemma EmptyAtEnd(m: string, text: string, p: nat, cur: nat, run: Run)
    requires Returned(m, text, cur, run) && p <= run.start && NulFree(text, p)
    ensures run.start < |m| && (m[run.start] == '\0' <==> run.start == run.end)
  {
    if run.start < run.end {
      assert m[run.start] == m[run.start..run.end][0] == text[run.start..run.end][0];
    }
  }

  /** Tokens found so far, all still intact. */
  ghost predicate AllCut(m: string, text: string, tokens: seq<nat>, found: seq<Run>, cur: nat) {
    && |tokens| == |found|
    && forall i {:trigger found[i]} :: 0 <= i < |found| ==>
         tokens[i] == found[i].start && found[i].end <= cur && Cut(m, text, found[i])
  }

  lemma NoneCut(m: string, text: string, cur: nat)
    ensures AllCut(m, text, [], [], cur)
  {
  }

  lemma AllCutMeans(m: string, text: string, tokens: seq<nat>, found: seq<Run>, cur: nat)
    requires AllCut(m, text, tokens, found, cur)
    ensures |tokens| == |found|
    ensures forall i {:trigger found[i]} :: 0 <= i < |found| ==> tokens[i] == found[i].start && Cut(m, text, found[i])
  {
  }

  lemma FromStep(text: string, sep: string, run: Run)
    requires run.end <= |text|
    ensures From(text, sep, run) == if run.start < run.end then [run] + Runs(text, sep, run.end) else []
  {
  }

  lemma AllCutKept(m: string, text: string, tokens: seq<nat>, found: seq<Run>, cur: nat, run: Run, at: nat, cur': nat)
    requires AllCut(m, text, tokens, found, cur) && Cut(m, text, run) && run.end <= cur <= at <= cur' && at < |m|
    ensures AllCut(m[at := '\0'], text, tokens + [run.start], found + [run], cur')
  {
    hide Cut;
    var more := found + [run];
    forall i | 0 <= i < |more|
      ensures more[i].end <= cur' && Cut(m[at := '\0'], text, more[i])
    {
      CutKept(m, text, more[i], at);
    }
  }

  ghost predicate NulFree(text: string, p: nat) {
    forall i {:trigger text[i]} :: p <= i < |text| ==> text[i] != '\0'
  }

  /** Call str_sep for the first time. */
  method FirstToken(buf: array<char>, str: nat, sep: string, ghost text: string)
      returns (next: nat, token: nat, ghost found: Run)
    requires CString(buf[..], str, |text|) && buf[..|text|] == text
    modifies buf
    ensures NulFree(text, str) && str <= found.start <= found.end
    ensures Returned(buf[..], text, next, found) && token == found.start
    ensures found.end <= |text| < buf.Length && (found.end < |text| ==> text[found.end] in sep)
    ensures From(text, sep, found) == Runs(text, sep, str)
    ensures token < buf.Length && (buf[token] == '\0' <==> found.start == found.end)
  {
    hide Skip, Stop, Runs, Returned, Cut, From;
    FirstReturned(buf[..], text, sep, str);
    found := NextRun(text, sep, str);
    var cur, tok := StrSep(buf, Some(str), sep, |text|);
    next, token := cur.value, tok.value;
    EmptyAtEnd(buf[..], text, str, next, found);
  }

  /** Call str_sep again after it has returned a token. */
  method NextToken(buf: array<char>, str: nat, sep: string, ghost text: string, ghost p: nat, ghost run: Run)
      returns (next: nat, token: nat, ghost found: Run)
    requires Returned(buf[..], text, str, run) && run.start < run.end && (run.end < |text| ==> text[run.end] in sep)
    requires NulFree(text, p) && p <= run.start
    modifies buf
    ensures Returned(buf[..], text, next, found) && token == found.start && str <= found.start <= found.end
    ensures found.end <= |text| < buf.Length && (found.end < |text| ==> text[found.end] in sep)
    ensures From(text, sep, found) == Runs(text, sep, run.end)
    ensures buf[..] == old(buf[..])[found.end := '\0'] && found.end <= next
    ensures token < buf.Length && (buf[token] == '\0' <==> found.start == found.end)
  {
    hide Skip, Stop, Runs, Returned, Cut, From;
    ReturnedMeans(buf[..], text, str, run);
    ReturnedNext(buf[..], text, sep, str, run);
    SameNextRun(buf[..], text, sep, str);
    var cur, tok := StrSep(buf, Some(str), sep, |text|);
    next, token, found := cur.value, tok.value, NextRun(text, sep, str);
    EmptyAtEnd(buf[..], text, p, next, found);
  }

  /** Calling str_sep until it returns an empty token; the tokens are left in memory as strings of their own. */
  method Tokenize(buf: array<char>, str: nat, sep: string, ghost n: nat) returns (tokens: seq<nat>)
    requires str <= n < buf.Length && CString(buf[..], str, n)
    modifies buf
    ensures var runs := Runs(old(buf[..n]), sep, str);
              && |tokens| == |runs|
              && forall i {:trigger runs[i]} :: 0 <= i < |runs| ==>
                   tokens[i] == runs[i].start && Cut(buf[..], old(buf[..n]), runs[i])
  {
    hide *;
    ghost var text := buf[..n];
    ghost var found: seq<Run> := [];
    tokens := [];
    var cur, token;
    ghost var last;
    cur, token, last := FirstToken(buf, str, sep, text);
    NoneCut(buf[..], text, cur);
    while buf[token] != '\0'
      invariant NulFree(text, str) && str <= token == last.start && last.end <= n && token < buf.Length
      invariant buf[token] == '\0' <==> last.start == last.end
      invariant Returned(buf[..], text, cur, last) && (last.end < n ==> text[last.end] in sep)
      invariant Runs(text, sep, str) == found + From(text, sep, last)
      invariant AllCut(buf[..], text, tokens, found, cur)
      decreases n - last.start
    {
      ReturnedMeans(buf[..], text, cur, last);
      ghost var m, run, from, old_tokens := buf[..], last, cur, tokens;
      tokens := tokens + [token];
      cur, token, last := NextToken(buf, cur, sep, text, str, last);
      AllCutKept(m, text, old_tokens, found, from, run, last.end, cur);
      FromStep(text, sep, run);
      found := found + [run];
    }
    FromStep(text, sep, last);
    AllCutMeans(buf[..], text, tokens, found, cur);
  }
}
