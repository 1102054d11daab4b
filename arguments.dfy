// The argument handling of main in main.c that is not getopt itself: the -x
// handler, which takes every following token up to the next option token as
// an exclude, and the collection of the remaining tokens as the command.

module Arguments {
  import opened Paths
  import opened StrLists
  import opened Seqs

  /** A token the -x handler stops at: its first character is '-'. */
  predicate IsOptionToken(t: string)
  {
    |t| > 0 && t[0] == '-'
  }

  /** Length of the longest prefix of tokens holding no option token. */
  function OperandRun(tokens: seq<string>): (n: nat)
    ensures n <= |tokens|
    ensures forall k | 0 <= k < n :: !IsOptionToken(tokens[k])
    ensures n < |tokens| ==> IsOptionToken(tokens[n])
  {
    if tokens == [] || IsOptionToken(tokens[0]) then 0
    else 1 + OperandRun(tokens[1..])
  }

  /** Every token with its leading "./" stripped, in order. */
  function StripAll(tokens: seq<string>): (r: seq<string>)
    ensures |r| == |tokens|
  {
    if tokens == [] then [] else [StripDotSlash(tokens[0])] + StripAll(tokens[1..])
  }

  /** Each recorded exclude is its token with a leading "./" stripped, one for one. */
  lemma {:induction false} StripAllAt(tokens: seq<string>, k: nat)
    requires k < |tokens|
    ensures StripAll(tokens)[k] == StripDotSlash(tokens[k])
    decreases k
  {
    if k > 0 {
      StripAllAt(tokens[1..], k - 1);
    }
  }

  /** The excludes the -x handler records when its operand is argv[start]. */
  function ExcludeOperands(argv: seq<string>, start: nat): (r: seq<string>)
    requires start <= |argv|
    ensures |r| == OperandRun(argv[start..])
    ensures forall k | 0 <= k < |r| :: r[k] == StripDotSlash(argv[start + k])
  {
    var run := argv[start..start + OperandRun(argv[start..])];
    forall k | 0 <= k < |run|
      ensures StripAll(run)[k] == StripDotSlash(argv[start + k])
    {
      StripAllAt(run, k);
    }
    StripAll(run)
  }

  /**
   * The -x handler: getopt has just consumed the operand, so optind is moved
   * back onto it; from there every token not starting with '-' is appended,
   * stripped of a leading "./", to excludes, until an option token or the end
   * of argv. Returns the new optind, from which getopt resumes.
   */
  method CollectExcludes(argv: seq<string>, optind: nat, excludes: StrList) returns (next: nat)
    requires 1 <= optind <= |argv|
    requires excludes.Valid()
    modifies excludes.Repr
    ensures excludes.Valid() && fresh(excludes.Repr - old(excludes.Repr))
    ensures next == optind - 1 + OperandRun(argv[optind - 1..])
    ensures excludes.Contents == old(excludes.Contents) + ExcludeOperands(argv, optind - 1)
  {
    ghost var start := optind - 1;
    next := optind - 1;
    while next < |argv|
      invariant start <= next <= |argv|
      invariant next - start <= OperandRun(argv[start..])
      invariant excludes.Valid() && fresh(excludes.Repr - old(excludes.Repr))
      invariant excludes.Contents == old(excludes.Contents) + StripAll(argv[start..next])
    {
      if IsOptionToken(argv[next]) {
        break;
      }
      OperandRunStep(argv, start, next);
      ghost var prev := excludes.Contents;
      excludes.Append(StripDotSlash(argv[next]));
      StripAllStep(argv, start, next, old(excludes.Contents), prev, excludes.Contents);
      next := next + 1;
    }
    OperandRunEnd(argv, start, next);
  }

  /** The -x handler's loop passes a token that is not an option token. */
  lemma OperandRunStep(argv: seq<string>, start: nat, i: nat)
    requires start <= i < |argv| && !IsOptionToken(argv[i])
    requires i - start <= OperandRun(argv[start..])
    ensures i + 1 - start <= OperandRun(argv[start..])
  {
    assert argv[start..][i - start] == argv[i];
  }

  /** Where the -x handler's loop stops, it has taken exactly ExcludeOperands. */
  lemma OperandRunEnd(argv: seq<string>, start: nat, i: nat)
    requires start <= i <= |argv|
    requires i - start <= OperandRun(argv[start..])
    requires i < |argv| ==> IsOptionToken(argv[i])
    ensures i == start + OperandRun(argv[start..])
    ensures ExcludeOperands(argv, start) == StripAll(argv[start..i])
  {
    var tokens := argv[start..];
    assert i < |argv| ==> tokens[i - start] == argv[i];
    assert i == start + OperandRun(tokens);
  }

  /** Bookkeeping of the -x handler's loop: one more operand recorded. */
  lemma StripAllStep(argv: seq<string>, start: nat, i: nat,
                     base: seq<string>, prev: seq<string>, now: seq<string>)
    requires start <= i < |argv|
    requires prev == base + StripAll(argv[start..i])
    requires now == prev + [StripDotSlash(argv[i])]
    ensures now == base + StripAll(argv[start..i + 1])
  {
    var done := StripAll(argv[start..i]);
    StripAllSnoc(argv[start..i], argv[i]);
    assert argv[start..i + 1] == argv[start..i] + [argv[i]];
    ConcatAssoc(base, done, [StripDotSlash(argv[i])]);
  }

  lemma {:induction false} StripAllSnoc(tokens: seq<string>, t: string)
    ensures StripAll(tokens + [t]) == StripAll(tokens) + [StripDotSlash(t)]
    decreases |tokens|
  {
    if tokens == [] {
      assert tokens + [t] == [t];
    } else {
      assert (tokens + [t])[1..] == tokens[1..] + [t];
      StripAllSnoc(tokens[1..], t);
      ConcatAssoc([StripDotSlash(tokens[0])], StripAll(tokens[1..]), [StripDotSlash(t)]);
    }
  }

  /** Any prefix length that is free of option tokens and maximal is OperandRun. */
  lemma OperandRunIsMaximal(tokens: seq<string>, n: nat)
    requires n <= |tokens|
    requires forall k | 0 <= k < n :: !IsOptionToken(tokens[k])
    requires n < |tokens| ==> IsOptionToken(tokens[n])
    ensures OperandRun(tokens) == n
  {
  }

  /** What main does once option parsing has stopped at optind. */
  datatype Outcome =
    | NoCommand               // "no command.", usage, exit status 1
    | RunCommand(command: seq<string>)

  /** The outcome: no token left is an error, otherwise all remaining tokens. */
  function CommandOutcome(argv: seq<string>, optind: nat): (o: Outcome)
    ensures o.NoCommand? <==> optind >= |argv|
    ensures o.RunCommand? ==> |o.command| > 0 && o.command == argv[optind..]
  {
    if optind + 1 > |argv| then NoCommand else RunCommand(argv[optind..])
  }

  /**
   * main after getopt: with no token left it reports "no command" (exit
   * status 1) and appends nothing; otherwise it appends every remaining
   * token, in order, to commands.
   */
  method CollectCommand(argv: seq<string>, optind: nat, commands: StrList) returns (o: Outcome)
    requires commands.Valid()
    modifies commands.Repr
    ensures commands.Valid() && fresh(commands.Repr - old(commands.Repr))
    ensures o == CommandOutcome(argv, optind)
    ensures o.NoCommand? ==> commands.Contents == old(commands.Contents)
    ensures o.RunCommand? ==> commands.Contents == old(commands.Contents) + o.command
  {
    if optind + 1 > |argv| {
      return NoCommand;
    }
    var i := optind;
    while i < |argv|
      invariant optind <= i <= |argv|
      invariant commands.Valid() && fresh(commands.Repr - old(commands.Repr))
      invariant commands.Contents == old(commands.Contents) + argv[optind..i]
    {
      commands.Append(argv[i]);
      assert argv[optind..i + 1] == argv[optind..i] + [argv[i]];
      i := i + 1;
    }
    assert argv[optind..i] == argv[optind..];
    o := RunCommand(argv[optind..]);
  }

  /**
   * The -x handler takes every operand up to the next option token, so when
   * no option token follows -x the handler consumes the rest of argv, the
   * intended command included, and main then finds no command.
   */
  lemma {:induction false} ExcludesSwallowTrailingOperands(argv: seq<string>, start: nat)
    requires start <= |argv|
    requires forall k | start <= k < |argv| :: !IsOptionToken(argv[k])
    ensures start + OperandRun(argv[start..]) == |argv|
    ensures CommandOutcome(argv, start + OperandRun(argv[start..])) == NoCommand
  {
    var n := |argv| - start;
    assert forall k | 0 <= k < n :: argv[start..][k] == argv[start + k];
    OperandRunIsMaximal(argv[start..], n);
  }

  /**
   * The handler assumes that after optind-- the token argv[optind] is optarg.
   * For the joined form "-xVALUE" getopt takes optarg from inside the option
   * token itself, so the rewound optind lands on that option token: the loop
   * stops at once, records nothing, and leaves optind on "-xVALUE" again.
   */
  lemma JoinedOperandIgnored(argv: seq<string>, optind: nat, optarg: string)
    requires 1 <= optind <= |argv|
    requires argv[optind - 1] == "-x" + optarg
    ensures ExcludeOperands(argv, optind - 1) == []
    ensures optind - 1 + OperandRun(argv[optind - 1..]) == optind - 1
  {
    assert argv[optind - 1..][0] == argv[optind - 1];
  }

  /**
   * The excludes of a handler that starts from optarg itself: when optarg is
   * the token before optind, as in the separate form "-x VALUE", it behaves
   * as main.c's handler; otherwise it records optarg and goes on from optind.
   */
  function ExcludeOperandsFrom(argv: seq<string>, optind: nat, optarg: string): (r: seq<string>)
    requires 1 <= optind <= |argv|
    ensures !IsOptionToken(optarg) ==> |r| > 0 && r[0] == StripDotSlash(optarg)
    ensures |r| <= |argv| - optind + 1
  {
    if argv[optind - 1] == optarg then ExcludeOperands(argv, optind - 1)
    else [StripDotSlash(optarg)] + ExcludeOperands(argv, optind)
  }

  /** Where getopt resumes after that handler: past the joined token at least. */
  function ResumeIndexFrom(argv: seq<string>, optind: nat, optarg: string): (next: nat)
    requires 1 <= optind <= |argv|
    ensures next <= |argv|
    ensures argv[optind - 1] != optarg ==> next >= optind
    ensures next < |argv| ==> IsOptionToken(argv[next])
  {
    if argv[optind - 1] == optarg then optind - 1 + OperandRun(argv[optind - 1..])
    else optind + OperandRun(argv[optind..])
  }

  /**
   * On the separate form the corrected handler is main.c's handler; on the
   * joined form it records the operand main.c's handler drops.
   */
  lemma {:induction false} ExcludeOperandsFromCorrect(argv: seq<string>, optind: nat, optarg: string)
    requires 1 <= optind <= |argv|
    ensures argv[optind - 1] == optarg ==>
      ExcludeOperandsFrom(argv, optind, optarg) == ExcludeOperands(argv, optind - 1)
    ensures argv[optind - 1] == optarg ==>
      ResumeIndexFrom(argv, optind, optarg) == optind - 1 + OperandRun(argv[optind - 1..])
    ensures argv[optind - 1] == "-x" + optarg && !IsOptionToken(optarg) ==>
      ExcludeOperandsFrom(argv, optind, optarg)[0] == StripDotSlash(optarg)
      && ExcludeOperands(argv, optind - 1) == []
  {
    if argv[optind - 1] == "-x" + optarg {
      JoinedOperandIgnored(argv, optind, optarg);
    }
  }

  /**
   * The joined form "-xVALUE" under the corrected handler behaves as the
   * separate form "-x VALUE" under main.c's handler: the same excludes, and
   * getopt resumes at the same token (one index earlier, as argv is one token
   * shorter). This holds for a VALUE that does not start with '-'.
   */
  lemma JoinedAsSeparate(argv: seq<string>, optind: nat, optarg: string)
    requires 1 <= optind <= |argv|
    requires argv[optind - 1] == "-x" + optarg && !IsOptionToken(optarg)
    ensures var sep := argv[..optind - 1] + ["-x", optarg] + argv[optind..];
      ExcludeOperandsFrom(argv, optind, optarg) == ExcludeOperands(sep, optind)
      && ResumeIndexFrom(argv, optind, optarg) + 1 == optind + OperandRun(sep[optind..])
  {
    var sep := argv[..optind - 1] + ["-x", optarg] + argv[optind..];
    var rest := argv[optind..];
    assert argv[optind - 1] != optarg by {
      assert |argv[optind - 1]| == |optarg| + 2;
    }
    assert sep[optind..] == [optarg] + rest;
    assert ([optarg] + rest)[1..] == rest;
    var joined := ExcludeOperandsFrom(argv, optind, optarg);
    var separate := ExcludeOperands(sep, optind);
    assert |joined| == |separate|;
    forall k | 0 <= k < |joined|
      ensures joined[k] == separate[k]
    {
      if k > 0 {
        assert sep[optind + k] == argv[optind + k - 1];
      }
    }
  }
}
