/** The linter routine of ls-watch as the source runs it: one pass over the
    arguments that pushes onto a flag list, raises a cluster counter and
    emits diagnostics, proved to produce exactly what module ShortArgs
    specifies.
 */
module LsWatch {
  import opened ShortArgs

  datatype Option<T> = None | Some(value: T)

  /** The n-th character of a token, if it has one. */
  function NthChar(s: string, n: nat): Option<char> {
    if n < |s| then Some(s[n]) else None
  }

  /** Taking the value out of an option that must be present; calling it on
      `None` is the program's abort, which the precondition rules out. */
  function Unwrap(o: Option<char>): char
    requires o.Some?
  {
    o.value
  }

  /** The token filter: too short, no leading dash, or a long option. The
      second character is read only after the first two tests have failed,
      and that read can never abort. */
  function SkipsToken(arg: string): (skip: bool)
    ensures skip <==> !IsShortCluster(arg)
  {
    |arg| < 2 || !(arg[0] == '-') || Unwrap(NthChar(arg, 1)) == '-'
  }

  /** The inner loop over the characters after the dash of one cluster token:
      each character is reported as unknown, reported as a duplicate, or pushed
      onto the flag list, and `emptyCluster` stays true until something is pushed.
      `before` is everything scanned before this token. */
  method ScanCluster(arg: string, ghost before: seq<char>, shortArgs0: seq<char>, diags0: seq<Diagnostic>)
    returns (shortArgs: seq<char>, diags: seq<Diagnostic>, emptyCluster: bool)
    requires IsShortCluster(arg)
    requires shortArgs0 == FirstSeen(before) && diags0 == CharDiags(before)
    ensures shortArgs == FirstSeen(before + arg[1..])
    ensures diags == CharDiags(before + arg[1..])
    ensures emptyCluster <==> !HasNewKnown(before, arg[1..])
  {
    shortArgs, diags := shortArgs0, diags0;
    var rest := arg[1..];
    assert before + rest[..0] == before;
    emptyCluster := true;
    for k := 0 to |rest|
      invariant shortArgs == FirstSeen(before + rest[..k])
      invariant diags == CharDiags(before + rest[..k])
      invariant emptyCluster <==> !HasNewKnown(before, rest[..k])
    {
      var c := rest[k];
      ScanClusterChar(before, rest, k);
      ContainsIsIn(shortArgs, c);
      if Contains(KnownArgs, c) {
        if Contains(shortArgs, c) {
          diags := diags + [Duplicate(c)];
        } else {
          shortArgs := shortArgs + [c];
          emptyCluster := false;
        }
      } else {
        diags := diags + [Unknown(c)];
      }
    }
    assert rest[..|rest|] == rest;
  }

  /** One run of the linter. `shortArgs` and `clusters` are the routine's
      local flag list and counter, returned so their final values can be stated. */
  method AnalyzeShortArgs(args: seq<string>)
    returns (diags: seq<Diagnostic>, shortArgs: seq<char>, clusters: nat)
    ensures diags == Analyze(args)
    ensures shortArgs == FirstSeen(Scanned(args))
    ensures clusters == Clusters(args)
    ensures NoDup(shortArgs) && forall c :: c in shortArgs ==> IsKnown(c)
    ensures clusters <= |args| && clusters <= |shortArgs|
  {
    shortArgs := [];
    clusters := 0;
    diags := [];
    for i := 0 to |args|
      invariant shortArgs == FirstSeen(Scanned(args[..i]))
      invariant diags == CharDiags(Scanned(args[..i]))
      invariant clusters == Clusters(args[..i])
    {
      var arg := args[i];
      ScanTokenAt(args, i);
      if SkipsToken(arg) {
        continue;
      }
      var emptyCluster;
      shortArgs, diags, emptyCluster := ScanCluster(arg, Scanned(args[..i]), shortArgs, diags);
      if !emptyCluster {
        clusters := clusters + 1;
      }
    }
    assert args[..|args|] == args;
    if clusters > 1 {
      diags := diags + [Suggest(['-'] + shortArgs)];
    }
    RunInvariants(args);
  }
}
