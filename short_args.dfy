/** The short-option analysis of ls-watch, stated declaratively.

    `analyze_short_args` reads the command's arguments once, left to right.
    Everything it reports depends only on the stream of characters that follow
    the leading dash of each short-option token (`Scanned`), on which of those
    characters were seen before (`FirstSeen`, `CharDiags`), and on which tokens
    brought in a flag not seen before (`Clusters`). The imperative model in
    module LsWatch is proved to compute exactly `Analyze`.
 */
module ShortArgs {

  /** One diagnostic line, in place of the `warn!` output. */
  datatype Diagnostic =
    | Unknown(c: char)           // "Unknown argument: c"
    | Duplicate(c: char)         // "Duplicate argument: c"
    | Suggest(combined: string)  // "Could have combined short arguments into <combined>"

  /** The 36 flag characters the linter knows; every one is a plain boolean flag. */
  const KnownArgs: seq<char> := [
    'a', 'A', 'b', 'c', 'C', 'd', 'D', 'f', 'F', 'g', 'h', 'H', 'i', 'I', 'k', 'l', 'L', 'm',
    'n', 'N', 'o', 'p', 'q', 'r', 'R', 's', 'S', 't', 'T', 'u', 'U', 'v', 'w', 'x', 'X', '1'
  ]

  /** Linear search, as `Vec::contains` does it. */
  predicate Contains(s: seq<char>, c: char) {
    s != [] && (s[0] == c || Contains(s[1..], c))
  }

  predicate IsKnown(c: char) {
    Contains(KnownArgs, c)
  }

  /** The linear search finds exactly the members of the list. */
  lemma {:induction false} ContainsIsIn(s: seq<char>, c: char)
    ensures Contains(s, c) <==> c in s
  {
    if s != [] {
      ContainsIsIn(s[1..], c);
      assert s == [s[0]] + s[1..];
    }
  }

  /** A token is analysed only when it is a dash followed by a non-dash character. */
  predicate IsShortCluster(tok: string) {
    |tok| >= 2 && tok[0] == '-' && tok[1] != '-'
  }

  predicate NoDup(s: seq<char>) {
    forall i, j :: 0 <= i < j < |s| ==> s[i] != s[j]
  }

  /** The characters after the dash of every analysed token, in token order. */
  function Scanned(args: seq<string>): seq<char> {
    if args == [] then []
    else
      var last := args[|args| - 1];
      Scanned(args[..|args| - 1]) + (if IsShortCluster(last) then last[1..] else [])
  }

  /** The known characters of `s`, each once, at the place it first occurs. */
  function FirstSeen(s: seq<char>): seq<char> {
    if s == [] then []
    else
      var prefix, c := s[..|s| - 1], s[|s| - 1];
      if IsKnown(c) && c !in prefix then FirstSeen(prefix) + [c] else FirstSeen(prefix)
  }

  /** What one scanned character reports, given the characters scanned before it. */
  function Outcome(before: seq<char>, c: char): seq<Diagnostic> {
    if !IsKnown(c) then [Unknown(c)]
    else if c in before then [Duplicate(c)]
    else []
  }

  /** The unknown/duplicate diagnostics of a character stream, in scan order. */
  function CharDiags(s: seq<char>): seq<Diagnostic> {
    if s == [] then []
    else CharDiags(s[..|s| - 1]) + Outcome(s[..|s| - 1], s[|s| - 1])
  }

  /** The character at position j of `t` is a known flag seen neither in `before`
      nor earlier in `t`. */
  predicate NewAt(before: seq<char>, t: seq<char>, j: int) {
    0 <= j < |t| && IsKnown(t[j]) && t[j] !in before + t[..j]
  }

  /** Some character of `t` is a known flag not seen before it. */
  predicate HasNewKnown(before: seq<char>, t: seq<char>) {
    exists j :: 0 <= j < |t| && NewAt(before, t, j)
  }

  /** The number of analysed tokens that contributed at least one new flag. */
  function Clusters(args: seq<string>): (n: nat)
    ensures n <= |args|
  {
    if args == [] then 0
    else
      var prefix, last := args[..|args| - 1], args[|args| - 1];
      Clusters(prefix) + (if IsShortCluster(last) && HasNewKnown(Scanned(prefix), last[1..]) then 1 else 0)
  }

  /** Every diagnostic of one run: the per-character ones, then the suggestion if any. */
  function Analyze(args: seq<string>): seq<Diagnostic> {
    var s := Scanned(args);
    CharDiags(s) + (if Clusters(args) > 1 then [Suggest(['-'] + FirstSeen(s))] else [])
  }

  /** Position of the first occurrence of `c` in `s`. */
  function FirstIndex(s: seq<char>, c: char): (k: nat)
    requires c in s
    ensures k < |s| && s[k] == c && c !in s[..k]
  {
    if s[0] == c then 0
    else
      var k := FirstIndex(s[1..], c) + 1;
      assert s[..k] == [s[0]] + s[1..][..k - 1];
      k
  }

  // ---------------------------------------------------------------------------
  // The collected flag list

  /** A character is collected exactly when it is a known flag that was scanned. */
  lemma {:induction false} FirstSeenMembers(s: seq<char>, c: char)
    ensures c in FirstSeen(s) <==> IsKnown(c) && c in s
  {
    if s != [] {
      var prefix := s[..|s| - 1];
      FirstSeenMembers(prefix, c);
      assert s == prefix + [s[|s| - 1]];
    }
  }

  /** The collected list never holds a character twice. */
  lemma {:induction false} FirstSeenNoDup(s: seq<char>)
    ensures NoDup(FirstSeen(s))
  {
    if s != [] {
      var prefix, c := s[..|s| - 1], s[|s| - 1];
      FirstSeenNoDup(prefix);
      FirstSeenMembers(prefix, c);
    }
  }

  /** Scanning more characters only appends: nothing collected is reordered or removed. */
  lemma {:induction false} FirstSeenExtends(s: seq<char>, t: seq<char>)
    ensures FirstSeen(s) <= FirstSeen(s + t)
  {
    if t != [] {
      var t' := t[..|t| - 1];
      FirstSeenExtends(s, t');
      var st := s + t;
      assert st[..|st| - 1] == s + t';
      assert FirstSeen(s + t') <= FirstSeen(st);
    } else {
      assert s + t == s;
    }
  }

  lemma {:induction false} FirstIndexAppend(p: seq<char>, t: seq<char>, x: char)
    requires x in p
    ensures FirstIndex(p + t, x) == FirstIndex(p, x)
  {
    if p[0] != x {
      assert (p + t)[1..] == p[1..] + t;
      FirstIndexAppend(p[1..], t, x);
    }
  }

  lemma {:induction false} FirstIndexAfter(p: seq<char>, t: seq<char>, x: char)
    requires x !in p && x in t
    ensures FirstIndex(p + t, x) == |p| + FirstIndex(t, x)
  {
    if p != [] {
      assert (p + t)[1..] == p[1..] + t;
      FirstIndexAfter(p[1..], t, x);
    } else {
      assert p + t == t;
    }
  }

  /** The collected flags are in order of first appearance in the scanned stream. */
  lemma {:induction false} FirstSeenOrder(s: seq<char>, i: nat, j: nat)
    requires i < j < |FirstSeen(s)|
    ensures FirstSeen(s)[i] in s && FirstSeen(s)[j] in s
    ensures FirstIndex(s, FirstSeen(s)[i]) < FirstIndex(s, FirstSeen(s)[j])
  {
    var r := FirstSeen(s);
    var prefix, c := s[..|s| - 1], s[|s| - 1];
    assert s == prefix + [c];
    var rp := FirstSeen(prefix);
    FirstSeenMembers(s, r[i]);
    FirstSeenMembers(s, r[j]);
    FirstSeenMembers(prefix, r[i]);
    FirstIndexAppend(prefix, [c], r[i]);
    if j < |rp| {
      FirstSeenOrder(prefix, i, j);
      FirstIndexAppend(prefix, [c], r[j]);
    } else {
      FirstIndexAfter(prefix, [c], c);
    }
  }

  // ---------------------------------------------------------------------------
  // Per-character outcomes

  /** Each scanned character has exactly one outcome: a diagnostic or a collected flag. */
  lemma {:induction false} EachCharOneOutcome(s: seq<char>)
    ensures |CharDiags(s)| + |FirstSeen(s)| == |s|
  {
    if s != [] {
      EachCharOneOutcome(s[..|s| - 1]);
    }
  }

  /** Unknown is reported for characters outside the catalogue, Duplicate for known ones. */
  lemma {:induction false} CharDiagsKinds(s: seq<char>)
    ensures forall d :: d in CharDiags(s) ==>
      (d.Unknown? && !IsKnown(d.c) && d.c in s) || (d.Duplicate? && IsKnown(d.c) && d.c in s)
  {
    if s != [] {
      var prefix := s[..|s| - 1];
      CharDiagsKinds(prefix);
      assert s == prefix + [s[|s| - 1]];
    }
  }

  /** Scanning more characters appends diagnostics after those already reported. */
  lemma {:induction false} CharDiagsExtends(s: seq<char>, t: seq<char>)
    ensures CharDiags(s) <= CharDiags(s + t)
  {
    if t != [] {
      var t' := t[..|t| - 1];
      CharDiagsExtends(s, t');
      var st := s + t;
      assert st[..|st| - 1] == s + t';
      assert CharDiags(s + t') <= CharDiags(st);
    } else {
      assert s + t == s;
    }
  }

  // ---------------------------------------------------------------------------
  // Tokens and the cluster count

  lemma {:induction false} ScannedAppend(a: seq<string>, b: seq<string>)
    ensures Scanned(a + b) == Scanned(a) + Scanned(b)
  {
    if b != [] {
      var b' := b[..|b| - 1];
      ScannedAppend(a, b');
      var ab := a + b;
      assert ab[..|ab| - 1] == a + b';
      assert ab[|ab| - 1] == b[|b| - 1];
    } else {
      assert a + b == a;
    }
  }

  lemma HasNewKnownSnoc(before: seq<char>, t: seq<char>, c: char)
    ensures HasNewKnown(before, t + [c]) <==> HasNewKnown(before, t) || (IsKnown(c) && c !in before + t)
  {
    var t1 := t + [c];
    if HasNewKnown(before, t) {
      var j :| 0 <= j < |t| && NewAt(before, t, j);
      assert t1[j] == t[j] && t1[..j] == t[..j];
      assert NewAt(before, t1, j);
    }
    if IsKnown(c) && c !in before + t {
      assert t1[|t|] == c && t1[..|t|] == t;
      assert NewAt(before, t1, |t|);
    }
    if HasNewKnown(before, t1) {
      var j :| 0 <= j < |t1| && NewAt(before, t1, j);
      if j < |t| {
        assert t1[j] == t[j] && t1[..j] == t[..j];
        assert NewAt(before, t, j);
      } else {
        assert t1[..j] == t;
      }
    }
  }

  /** The collected list grows over `t` exactly when `t` holds a new known flag. */
  lemma {:induction false} FirstSeenGrows(before: seq<char>, t: seq<char>)
    ensures |FirstSeen(before + t)| > |FirstSeen(before)| <==> HasNewKnown(before, t)
  {
    if t == [] {
      assert before + t == before;
    } else {
      var t', c := t[..|t| - 1], t[|t| - 1];
      assert t == t' + [c];
      FirstSeenGrows(before, t');
      FirstSeenExtends(before, t');
      HasNewKnownSnoc(before, t', c);
      assert (before + t)[..|before + t| - 1] == before + t';
    }
  }

  /** One more token raises the count by 1 if it collected a new flag, by 0 otherwise. */
  lemma ClusterStep(args: seq<string>, tok: string)
    ensures Clusters(args + [tok]) == Clusters(args) +
      (if |FirstSeen(Scanned(args + [tok]))| > |FirstSeen(Scanned(args))| then 1 else 0)
  {
    assert (args + [tok])[..|args|] == args;
    if IsShortCluster(tok) {
      assert Scanned(args + [tok]) == Scanned(args) + tok[1..];
      FirstSeenGrows(Scanned(args), tok[1..]);
    } else {
      assert Scanned(args + [tok]) == Scanned(args) + [];
      assert Scanned(args) + [] == Scanned(args);
    }
  }

  /** Each counted token collected at least one flag, so the count never exceeds the list. */
  lemma {:induction false} ClustersAtMostFlags(args: seq<string>)
    ensures Clusters(args) <= |FirstSeen(Scanned(args))|
  {
    if args != [] {
      var prefix, last := args[..|args| - 1], args[|args| - 1];
      assert args == prefix + [last];
      ClustersAtMostFlags(prefix);
      ClusterStep(prefix, last);
      ScannedAppend(prefix, [last]);
      FirstSeenExtends(Scanned(prefix), Scanned([last]));
    }
  }

  /** A token that is not a short-option cluster changes nothing, wherever it stands. */
  lemma {:induction false} SkippedTokenNoEffect(pre: seq<string>, tok: string, post: seq<string>)
    requires !IsShortCluster(tok)
    ensures Scanned(pre + [tok] + post) == Scanned(pre + post)
    ensures Clusters(pre + [tok] + post) == Clusters(pre + post)
    ensures Analyze(pre + [tok] + post) == Analyze(pre + post)
  {
    if post == [] {
      assert pre + [tok] + post == pre + [tok];
      assert pre + post == pre;
      assert (pre + [tok])[..|pre|] == pre;
    } else {
      var post', x := post[..|post| - 1], post[|post| - 1];
      SkippedTokenNoEffect(pre, tok, post');
      assert (pre + [tok] + post)[..|pre + [tok] + post| - 1] == pre + [tok] + post';
      assert (pre + post)[..|pre + post| - 1] == pre + post';
    }
  }

  /** Scanning one more character: collected if new and known, otherwise one diagnostic. */
  lemma ScanChar(seen: seq<char>, c: char)
    ensures FirstSeen(seen + [c]) ==
      if IsKnown(c) && c !in seen then FirstSeen(seen) + [c] else FirstSeen(seen)
    ensures CharDiags(seen + [c]) == CharDiags(seen) + Outcome(seen, c)
  {
    assert (seen + [c])[..|seen|] == seen;
  }

  /** One character of a cluster, judged against the list collected so far. */
  lemma ScanClusterChar(before: seq<char>, t: seq<char>, k: nat)
    requires k < |t|
    ensures var collected, c := FirstSeen(before + t[..k]), t[k];
      && FirstSeen(before + t[..k + 1]) ==
           (if IsKnown(c) && c !in collected then collected + [c] else collected)
      && CharDiags(before + t[..k + 1]) == CharDiags(before + t[..k]) +
           (if !IsKnown(c) then [Unknown(c)] else if c in collected then [Duplicate(c)] else [])
      && (HasNewKnown(before, t[..k + 1]) <==> HasNewKnown(before, t[..k]) || (IsKnown(c) && c !in collected))
  {
    var c := t[k];
    assert t[..k + 1] == t[..k] + [c];
    assert before + t[..k + 1] == (before + t[..k]) + [c];
    ScanChar(before + t[..k], c);
    FirstSeenMembers(before + t[..k], c);
    HasNewKnownSnoc(before, t[..k], c);
  }

  /** Reading one more token: its characters are scanned and counted only if it is a cluster. */
  lemma ScanToken(args: seq<string>, tok: string)
    ensures Scanned(args + [tok]) ==
      if IsShortCluster(tok) then Scanned(args) + tok[1..] else Scanned(args)
    ensures Clusters(args + [tok]) == Clusters(args) +
      if IsShortCluster(tok) && HasNewKnown(Scanned(args), tok[1..]) then 1 else 0
  {
    assert (args + [tok])[..|args|] == args;
    assert Scanned(args) + [] == Scanned(args);
  }

  /** The same step, phrased for the first i + 1 arguments of a run. */
  lemma ScanTokenAt(args: seq<string>, i: nat)
    requires i < |args|
    ensures Scanned(args[..i + 1]) ==
      if IsShortCluster(args[i]) then Scanned(args[..i]) + args[i][1..] else Scanned(args[..i])
    ensures Clusters(args[..i + 1]) == Clusters(args[..i]) +
      if IsShortCluster(args[i]) && HasNewKnown(Scanned(args[..i]), args[i][1..]) then 1 else 0
  {
    assert args[..i + 1] == args[..i] + [args[i]];
    ScanToken(args[..i], args[i]);
  }

  // ---------------------------------------------------------------------------
  // The run as a whole

  /** What holds of the flag list and the counter at the end of every run: no flag twice,
      only catalogue flags, and never more counted tokens than arguments or flags. */
  lemma RunInvariants(args: seq<string>)
    ensures NoDup(FirstSeen(Scanned(args)))
    ensures forall c :: c in FirstSeen(Scanned(args)) ==> IsKnown(c)
    ensures Clusters(args) <= |args| && Clusters(args) <= |FirstSeen(Scanned(args))|
  {
    FirstSeenNoDup(Scanned(args));
    forall c | c in FirstSeen(Scanned(args))
      ensures IsKnown(c)
    {
      FirstSeenMembers(Scanned(args), c);
    }
    ClustersAtMostFlags(args);
  }

  /** The suggestion is emitted exactly when more than one token contributed, comes last,
      and is a dash followed by at least two flags in first-seen order. */
  lemma Suggestion(args: seq<string>)
    ensures (exists d :: d in Analyze(args) && d.Suggest?) <==> Clusters(args) > 1
    ensures forall k :: 0 <= k < |Analyze(args)| - 1 ==> !Analyze(args)[k].Suggest?
    ensures Clusters(args) > 1 ==>
      var combined := ['-'] + FirstSeen(Scanned(args));
      Analyze(args)[|Analyze(args)| - 1] == Suggest(combined) && |combined| >= 3
  {
    var s := Scanned(args);
    CharDiagsKinds(s);
    ClustersAtMostFlags(args);
    var r := Analyze(args);
    forall k | 0 <= k < |r| - 1
      ensures !r[k].Suggest?
    {
      assert r[k] in CharDiags(s);
    }
    if Clusters(args) > 1 {
      assert r[|r| - 1] in r;
    }
  }

  /** The diagnostics of the first k tokens are reported before anything later. */
  lemma DiagnosticOrder(args: seq<string>, k: nat)
    requires k <= |args|
    ensures CharDiags(Scanned(args[..k])) <= Analyze(args)
  {
    assert args == args[..k] + args[k..];
    ScannedAppend(args[..k], args[k..]);
    CharDiagsExtends(Scanned(args[..k]), Scanned(args[k..]));
  }

  // ---------------------------------------------------------------------------
  // Worked runs

  /** The dash itself is not a flag, so a known flag never turns `-x` into a long option. */
  lemma DashUnknown()
    ensures !IsKnown('-')
  {
    assert '-' !in KnownArgs;
    ContainsIsIn(KnownArgs, '-');
  }

  /** `-x -y`: both tokens are scanned and both count as clusters. */
  lemma TwoSingleFlagTokens(x: char, y: char)
    requires IsKnown(x) && IsKnown(y) && x != y
    ensures Scanned([['-', x], ['-', y]]) == [x, y] && Clusters([['-', x], ['-', y]]) == 2
  {
    assert x != '-' && y != '-' by { DashUnknown(); }
    var tx, ty := ['-', x], ['-', y];
    assert tx[1..] == [x] && ty[1..] == [y];
    assert [] + [x] == [x] && [x] + [y] == [x, y];
    assert HasNewKnown([], [x]) && HasNewKnown([x], [y]) by {
      assert [x][..0] == [] && [y][..0] == [];
      assert NewAt([], [x], 0) && NewAt([x], [y], 0);
    }
    assert [] + [tx] == [tx] && [tx] + [ty] == [tx, ty];
    ScanToken([], tx);
    ScanToken([tx], ty);
  }

  /** `-x -y` with two different known flags: both collected, two clusters, one suggestion `-xy`. */
  lemma SeparateFlagsAreCombined(x: char, y: char)
    requires IsKnown(x) && IsKnown(y) && x != y
    ensures Analyze([['-', x], ['-', y]]) == [Suggest(['-', x, y])]
  {
    var args := [['-', x], ['-', y]];
    TwoSingleFlagTokens(x, y);
    var s := Scanned(args);
    assert CharDiags(s) == [] && FirstSeen(s) == [x, y] by {
      assert [] + [x] == [x] && [x] + [y] == [x, y];
      ScanChar([], x);
      ScanChar([x], y);
    }
    calc {
      Analyze(args);
      CharDiags(s) + [Suggest(['-'] + FirstSeen(s))];
      [Suggest(['-'] + [x, y])];
      { assert ['-'] + [x, y] == ['-', x, y]; }
      [Suggest(['-', x, y])];
    }
  }

  /** `-xy` alone: both flags collected in one cluster, so nothing is suggested. */
  lemma OneClusterNoSuggestion(x: char, y: char)
    requires IsKnown(x) && IsKnown(y) && x != y
    ensures Analyze([['-', x, y]]) == []
  {
    assert x != '-' by { DashUnknown(); }
    var t := ['-', x, y];
    assert t[1..] == [x, y] && [] + [x, y] == [x, y];
    assert [] + [x] == [x] && [x] + [y] == [x, y];
    assert [] + [t] == [t];
    ScanToken([], t);
    ScanChar([], x);
    ScanChar([x], y);
  }

  /** `-z` with `z` outside the catalogue: one Unknown diagnostic and nothing else. */
  lemma UnknownFlagReported(z: char)
    requires !IsKnown(z) && z != '-'
    ensures Analyze([['-', z]]) == [Unknown(z)]
  {
    var t := ['-', z];
    assert t[1..] == [z] && [] + [z] == [z];
    assert [] + [t] == [t];
    ScanToken([], t);
    ScanChar([], z);
  }

  /** `-x -x`: the second occurrence is reported as a duplicate and nothing is suggested. */
  lemma RepeatedFlagReported(x: char)
    requires IsKnown(x)
    ensures Analyze([['-', x], ['-', x]]) == [Duplicate(x)]
  {
    assert x != '-' by { DashUnknown(); }
    var t := ['-', x];
    assert Scanned([t, t]) == [x, x] && Clusters([t, t]) <= 1 by {
      assert t[1..] == [x];
      assert [] + [x] == [x] && [x] + [x] == [x, x];
      assert !HasNewKnown([x], [x]) by {
        assert [x][..0] == [];
      }
      assert [] + [t] == [t] && [t] + [t] == [t, t];
      ScanToken([], t);
      ScanToken([t], t);
    }
    assert CharDiags([x, x]) == [Duplicate(x)] by {
      assert [] + [x] == [x] && [x] + [x] == [x, x];
      ScanChar([], x);
      ScanChar([x], x);
    }
  }

  /** `l` and `a` are in the catalogue. */
  lemma LowerLAndAKnown()
    ensures IsKnown('l') && IsKnown('a')
  {
    assert 'l' in KnownArgs && 'a' in KnownArgs;
    ContainsIsIn(KnownArgs, 'l');
    ContainsIsIn(KnownArgs, 'a');
  }

  /** `Z` is not in the catalogue. */
  lemma UpperZUnknown()
    ensures !IsKnown('Z')
  {
    assert 'Z' !in KnownArgs;
    ContainsIsIn(KnownArgs, 'Z');
  }

  /** `-l -a` suggests `-la`; `-la` alone suggests nothing; `-Z` is unknown. */
  lemma SampleRuns()
    ensures Analyze(["-l", "-a"]) == [Suggest("-la")]
    ensures Analyze(["-la"]) == []
    ensures Analyze(["-Z"]) == [Unknown('Z')]
  {
    LowerLAndAKnown();
    UpperZUnknown();
    SeparateFlagsAreCombined('l', 'a');
    OneClusterNoSuggestion('l', 'a');
    UnknownFlagReported('Z');
  }
}
