/** The scan of the argument vector in tools/getopt.c: options are moved before
    operands as they are met, by exchanging adjacent blocks. */
module ArgScan {
  import opened GetOpt

  /** What an element of the argument vector is: an operand; an option, or the
      options grouped in one element, and whether the next element belongs to
      it; or the `--` that ends the options. */
  datatype Kind = Operand | Flag(takesNext: bool) | Terminator

  datatype Parts<T> = Parts(options: seq<T>, operands: seq<T>)

  /** The elements that are options or belong to them, and the operands. */
  function Split<T>(kind: T -> Kind, s: seq<T>): Parts<T> {
    if s == [] then
      Parts([], [])
    else
      match kind(s[0])
      case Terminator => Parts([s[0]], s[1..])
      case Operand =>
        var rest := Split(kind, s[1..]);
        Parts(rest.options, [s[0]] + rest.operands)
      case Flag(takesNext) =>
        var n := Taken(takesNext, |s|);
        var rest := Split(kind, s[n..]);
        Parts(s[..n] + rest.options, rest.operands)
  }

  /** How many elements an option takes of those left. */
  function Taken(takesNext: bool, left: nat): (n: nat)
    requires left > 0
    ensures 1 <= n <= left
  {
    if takesNext && left > 1 then 2 else 1
  }

  /** How far a scan has come: red_optind, nonopt_start and nonopt_end. */
  datatype Progress = Progress(optind: nat, start: int, end: int) {
    /** Where a scan rests between options. */
    predicate Fits(length: nat) {
      && 1 <= optind <= length
      && if start == -1 then end == -1 else 1 <= start < optind && (end == -1 || start < end <= optind)
    }
  }

  ghost function Options<T>(s: seq<T>, at: Progress): seq<T>
    requires at.Fits(|s|)
  {
    if at.start == -1 then s[1..at.optind]
    else if at.end == -1 then s[1..at.start]
    else s[1..at.start] + s[at.end..at.optind]
  }

  ghost function Operands<T>(s: seq<T>, at: Progress): seq<T>
    requires at.Fits(|s|)
  {
    if at.start == -1 then [] else if at.end == -1 then s[at.start..at.optind] else s[at.start..at.end]
  }

  /** What was passed over so far, and what is to be made of the rest. */
  ghost function Outlook<T>(kind: T -> Kind, s: seq<T>, at: Progress): Parts<T>
    requires at.Fits(|s|)
  {
    Before(Options(s, at), Operands(s, at), Split(kind, s[at.optind..]))
  }

  function Before<T>(options: seq<T>, operands: seq<T>, rest: Parts<T>): Parts<T> {
    Parts(options + rest.options, operands + rest.operands)
  }

  lemma BeforeTwice<T>(a: seq<T>, b: seq<T>, c: seq<T>, d: seq<T>, rest: Parts<T>)
    ensures Before(a + c, b + d, rest) == Before(a, b, Before(c, d, rest))
  {
    assert a + c + rest.options == a + (c + rest.options);
    assert b + d + rest.operands == b + (d + rest.operands);
  }

  lemma BeforeOptions<T>(a: seq<T>, b: seq<T>, c: seq<T>, rest: Parts<T>)
    ensures Before(a + c, b, rest) == Before(a, b, Before(c, [], rest))
  {
    BeforeTwice(a, b, c, [], rest);
    assert b + [] == b;
  }

  /** After exchanging the blocks, the operands passed over end at red_optind. */
  lemma ExchangeKeeps<T>(kind: T -> Kind, s: seq<T>, at: Progress)
    requires at.Fits(|s|) && at.end != -1 && at.end < at.optind
    ensures var moved := at.(start := at.optind - (at.end - at.start), end := -1);
            && moved.Fits(|s|)
            && Outlook(kind, Exchanged(s, at.start, at.end, at.optind), moved) == Outlook(kind, s, at)
            && Exchanged(s, at.start, at.end, at.optind)[0] == s[0]
            && |Exchanged(s, at.start, at.end, at.optind)| == |s|
            && Exchanged(s, at.start, at.end, at.optind)[at.optind..] == s[at.optind..]
  {
    hide Split;
    var t := Exchanged(s, at.start, at.end, at.optind);
    var start := at.optind - (at.end - at.start);
    assert t[at.optind..] == s[at.optind..];
    assert t[1..start] == s[1..at.start] + s[at.end..at.optind];
    assert t[start..at.optind] == s[at.start..at.end];
  }

  /** Passing over an operand. */
  lemma OperandKeeps<T>(kind: T -> Kind, s: seq<T>, at: Progress)
    requires at.Fits(|s|) && at.end == -1 && at.optind < |s| && kind(s[at.optind]).Operand?
    ensures var passed := at.(optind := at.optind + 1, start := if at.start == -1 then at.optind else at.start);
            passed.Fits(|s|) && Outlook(kind, s, passed) == Outlook(kind, s, at)
  {
    var k := at.optind;
    var passed := at.(optind := k + 1, start := if at.start == -1 then k else at.start);
    SplitOperand(kind, s, k);
    assert Operands(s, passed) == Operands(s, at) + [s[k]];
    assert Options(s, passed) == Options(s, at) + [];
    hide Split, Options, Operands, Before;
    BeforeTwice(Options(s, at), Operands(s, at), [], [s[k]], Split(kind, s[k + 1..]));
  }

  lemma SplitOperand<T>(kind: T -> Kind, s: seq<T>, k: nat)
    requires k < |s| && kind(s[k]).Operand?
    ensures Split(kind, s[k..]) == Before([], [s[k]], Split(kind, s[k + 1..]))
  {
    assert s[k..][1..] == s[k + 1..];
  }

  /** Marking where the operands end does not change what was passed over. */
  lemma MarkKeeps<T>(kind: T -> Kind, s: seq<T>, at: Progress)
    requires at.Fits(|s|) && at.start != -1 && at.end == -1
    ensures var marked := at.(end := at.optind);
            marked.Fits(|s|) && Outlook(kind, s, marked) == Outlook(kind, s, at)
  {
    assert Options(s, at.(end := at.optind)) == Options(s, at);
  }

  /** Passing over an option and what belongs to it. */
  lemma FlagKeeps<T>(kind: T -> Kind, s: seq<T>, at: Progress, n: nat)
    requires at.Fits(|s|) && at.optind < |s| && kind(s[at.optind]).Flag? && (at.start != -1 ==> at.end != -1)
    requires n == Taken(kind(s[at.optind]).takesNext, |s| - at.optind)
    ensures at.(optind := at.optind + n).Fits(|s|)
    ensures Outlook(kind, s, at.(optind := at.optind + n)) == Outlook(kind, s, at)
  {
    hide Split, Options, Operands, Taken, Before;
    var passed := at.(optind := at.optind + n);
    SplitFlag(kind, s, at.optind, n);
    OptionsGrow(s, at, n);
    BeforeOptions(Options(s, at), Operands(s, at), s[at.optind..passed.optind], Split(kind, s[passed.optind..]));
  }

  lemma OptionsGrow<T>(s: seq<T>, at: Progress, n: nat)
    requires at.Fits(|s|) && at.optind + n <= |s| && (at.start != -1 ==> at.end != -1)
    ensures Options(s, at.(optind := at.optind + n)) == Options(s, at) + s[at.optind..at.optind + n]
    ensures Operands(s, at.(optind := at.optind + n)) == Operands(s, at)
  {
    var k := at.optind;
    assert s[if at.start == -1 then 1 else at.end..k + n] == s[if at.start == -1 then 1 else at.end..k] + s[k..k + n];
  }

  lemma SplitFlag<T>(kind: T -> Kind, s: seq<T>, k: nat, n: nat)
    requires k < |s| && kind(s[k]).Flag? && n == Taken(kind(s[k]).takesNext, |s| - k)
    ensures Split(kind, s[k..]) == Before(s[k..k + n], [], Split(kind, s[k + n..]))
  {
    var rest := Split(kind, s[k + n..]);
    assert s[k..][n..] == s[k + n..] && s[k..][..n] == s[k..k + n];
  }

  /** Passing over the `--` leaves only operands. */
  lemma TerminatorKeeps<T>(kind: T -> Kind, s: seq<T>, at: Progress)
    requires at.Fits(|s|) && at.optind < |s| && kind(s[at.optind]).Terminator? && (at.start != -1 ==> at.end != -1)
    ensures var passed := at.(optind := at.optind + 1);
            && passed.Fits(|s|)
            && Outlook(kind, s, at) == Parts(Options(s, passed), Operands(s, passed) + s[passed.optind..])
  {
    SplitTerminator(kind, s, at.optind);
    OptionsGrow(s, at, 1);
    hide Split, Options, Operands;
  }

  lemma SplitTerminator<T>(kind: T -> Kind, s: seq<T>, k: nat)
    requires k < |s| && kind(s[k]).Terminator?
    ensures Split(kind, s[k..]) == Parts(s[k..k + 1], s[k + 1..])
  {
    assert s[k..][1..] == s[k + 1..] && [s[k]] == s[k..k + 1];
  }

  lemma FinishExchanged<T>(s: seq<T>, at: Progress)
    requires at.Fits(|s|) && at.end != -1 && at.end < at.optind
    ensures var t, k := Exchanged(s, at.start, at.end, at.optind), at.optind - (at.end - at.start);
            && |t| == |s| && t[0] == s[0] && 1 <= k
            && t[1..k] == Options(s, at) && t[k..] == Operands(s, at) + s[at.optind..]
  {
  }

  lemma FinishInPlace<T>(s: seq<T>, at: Progress)
    requires at.Fits(|s|) && at.end == -1 && (at.start != -1 ==> at.optind == |s|)
    ensures var k := if at.start == -1 then at.optind else at.start;
            s[1..k] == Options(s, at) && s[k..] == Operands(s, at) + s[at.optind..]
  {
  }

  /** With nothing left, the result is what was passed over. */
  lemma NothingLeft<T>(kind: T -> Kind, s: seq<T>, at: Progress)
    requires at.Fits(|s|) && at.optind == |s|
    ensures Outlook(kind, s, at) == Parts(Options(s, at), Operands(s, at) + s[at.optind..])
  {
  }

  lemma Reassembled<T>(s: seq<T>, k: nat)
    requires 1 <= k <= |s|
    ensures s == [s[0]] + s[1..k] + s[k..]
  {
  }

  class Scanner<T> {
    const args: array<T>
    const kind: T -> Kind
    var optind: nat
    var nonoptStart: int
    var nonoptEnd: int

    ghost function At(): Progress
      reads this
    {
      Progress(optind, nonoptStart, nonoptEnd)
    }

    ghost predicate Valid()
      reads this
    {
      At().Fits(args.Length) && (nonoptEnd != -1 ==> nonoptEnd < optind)
    }

    /** What the scan will make of the arguments in the end. */
    ghost function Result(): Parts<T>
      reads this, args
      requires Valid()
    {
      Outlook(kind, args[..], At())
    }

    constructor (args: array<T>, kind: T -> Kind)
      requires args.Length >= 1
      ensures Valid() && this.args == args && this.kind == kind && Result() == Split(kind, args[1..])
    {
      this.args, this.kind := args, kind;
      optind, nonoptStart, nonoptEnd := 1, -1, -1;
    }

    /** Pass over an operand, after exchanging it with the options before it if
        operands came before those. */
    method SkipOperand()
      requires Valid() && optind < args.Length && kind(args[optind]).Operand?
      modifies this, args
      ensures Valid() && Result() == old(Result()) && args[0] == old(args[0]) && optind == old(optind) + 1
    {
      hide Split, Outlook, Exchanged;
      if nonoptStart == -1 {
        OperandKeeps(kind, args[..], At());
        nonoptStart := optind;
      } else if nonoptEnd != -1 {
        ExchangeKeeps(kind, args[..], At());
        ghost var after := Exchanged(args[..], nonoptStart, nonoptEnd, optind);
        assert args[optind] == args[..][optind..][0];
        assert after[optind] == after[optind..][0];
        PermuteArgs(args, nonoptStart, nonoptEnd, optind);
        nonoptStart := optind - (nonoptEnd - nonoptStart);
        nonoptEnd := -1;
        OperandKeeps(kind, after, At());
      } else {
        OperandKeeps(kind, args[..], At());
      }
      optind := optind + 1;
    }

    /** Pass over an element that is not an operand; false if it is the `--`. */
    method TakeFlag() returns (more: bool)
      requires Valid() && optind < args.Length && !kind(args[optind]).Operand?
      modifies this
      ensures Valid() && optind > old(optind) && (nonoptStart != -1 ==> nonoptEnd != -1)
      ensures more ==> Result() == old(Result())
      ensures !more ==> old(Result()) == Parts(Options(args[..], At()), Operands(args[..], At()) + args[optind..])
    {
      hide Split, Options, Operands;
      if nonoptStart != -1 && nonoptEnd == -1 {
        MarkKeeps(kind, args[..], At());
        nonoptEnd := optind;
      }
      if kind(args[optind]).Terminator? {
        TerminatorKeeps(kind, args[..], At());
        optind := optind + 1;
        more := false;
      } else {
        var n := Taken(kind(args[optind]).takesNext, args.Length - optind);
        FlagKeeps(kind, args[..], At(), n);
        optind := optind + n;
        more := true;
      }
    }

    /** getopt_internal(), as far as it moves through the arguments, for a whole
        element at a time: false once there are no more options. */
    method Next() returns (more: bool)
      requires Valid()
      modifies this, args
      ensures args[0] == old(args[0])
      ensures more ==> Valid() && Result() == old(Result()) && optind > old(optind)
      ensures !more ==>
                && nonoptStart == nonoptEnd == -1
                && 1 <= optind <= args.Length
                && args[1..optind] == old(Result()).options
                && args[optind..] == old(Result()).operands
    {
      hide Split, Options, Operands;
      while optind < args.Length && kind(args[optind]).Operand?
        invariant Valid() && Result() == old(Result()) && args[0] == old(args[0]) && optind >= old(optind)
      {
        SkipOperand();
      }
      if optind >= args.Length {
        NothingLeft(kind, args[..], At());
        more := false;
      } else {
        more := TakeFlag();
      }
      if !more {
        Finish();
      }
    }

    /** The end of the options: put the operands passed over behind them. */
    method Finish()
      requires At().Fits(args.Length) && (nonoptEnd != -1 ==> nonoptEnd < optind)
      requires nonoptStart != -1 && nonoptEnd == -1 ==> optind == args.Length
      modifies this, args
      ensures args[0] == old(args[0]) && nonoptStart == nonoptEnd == -1 && 1 <= optind <= args.Length
      ensures args[1..optind] == old(Options(args[..], At()))
      ensures args[optind..] == old(Operands(args[..], At()) + args[optind..])
    {
      ghost var s, at := args[..], At();
      hide Exchanged, Options, Operands;
      if nonoptEnd != -1 {
        FinishExchanged(s, at);
        PermuteArgs(args, nonoptStart, nonoptEnd, optind);
        optind := optind - (nonoptEnd - nonoptStart);
      } else {
        FinishInPlace(s, at);
        if nonoptStart != -1 {
          optind := nonoptStart;
        }
      }
      nonoptStart, nonoptEnd := -1, -1;
    }

    /** What a caller does: get options until there are none left.  Then all
        options, in order, come before all operands, in order. */
    method ScanAll()
      requires Valid()
      modifies this, args
      ensures args[..] == [old(args[0])] + old(Result()).options + old(Result()).operands
      ensures optind == 1 + |old(Result()).options|
    {
      var more := true;
      ghost var first, parts := args[0], Result();
      while more
        invariant args[0] == first
        invariant more ==> Valid() && Result() == parts
        invariant !more ==> 1 <= optind <= args.Length && args[1..optind] == parts.options && args[optind..] == parts.operands
        decreases more, args.Length - optind
      {
        more := Next();
      }
      Reassembled(args[..], optind);
    }
  }
}
