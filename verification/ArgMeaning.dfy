/** What the arguments mean to a program that scans them: its options with their
    arguments, in order, and its operands.  Moving options before operands keeps
    that meaning, unless the last option lacks its argument. */
module ArgMeaning {
  import opened ArgScan

  /** An option as red_getopt_long() reports it, with its argument if it has one. */
  datatype Event<T> = Event(option: T, argument: seq<T>)

  /** The options reported in a scan of `s`. */
  function Events<T>(kind: T -> Kind, s: seq<T>): seq<Event<T>> {
    if s == [] || kind(s[0]).Terminator? then
      []
    else if kind(s[0]).Operand? then
      Events(kind, s[1..])
    else if kind(s[0]).takesNext && |s| > 1 then
      [Event(s[0], [s[1]])] + Events(kind, s[2..])
    else
      [Event(s[0], [])] + Events(kind, s[1..])
  }

  /** The last option wants an argument, and there was no element left. */
  ghost predicate Dangling<T>(kind: T -> Kind, s: seq<T>) {
    var events := Events(kind, s);
    events != [] && var last := events[|events| - 1]; kind(last.option) == Flag(true) && last.argument == []
  }

  /** The arguments as the scan leaves them. */
  function Permuted<T>(kind: T -> Kind, s: seq<T>): seq<T> {
    Split(kind, s).options + Split(kind, s).operands
  }

  ghost predicate AllOperands<T>(kind: T -> Kind, s: seq<T>) {
    forall i | 0 <= i < |s| :: kind(s[i]).Operand?
  }

  lemma {:induction false} NoEventsInOperands<T>(kind: T -> Kind, s: seq<T>)
    requires AllOperands(kind, s)
    ensures Events(kind, s) == [] && Split(kind, s) == Parts([], s)
  {
    if s != [] {
      NoEventsInOperands(kind, s[1..]);
    }
  }

  /** Whether the scan comes to a `--`. */
  ghost predicate Terminated<T>(kind: T -> Kind, s: seq<T>) {
    s != [] &&
    (kind(s[0]).Terminator? ||
     (if kind(s[0]).Flag? && kind(s[0]).takesNext && |s| > 1 then Terminated(kind, s[2..]) else Terminated(kind, s[1..])))
  }

  lemma {:induction false} OperandsAre<T>(kind: T -> Kind, s: seq<T>)
    ensures Terminated(kind, s) || AllOperands(kind, Split(kind, s).operands)
    ensures Dangling(kind, s) ==> !Terminated(kind, s)
  {
    if s != [] && !kind(s[0]).Terminator? {
      OperandsAre(kind, Rest(kind, s));
    }
  }

  /** What a scan goes on with after its first element. */
  ghost function Rest<T>(kind: T -> Kind, s: seq<T>): (rest: seq<T>)
    requires s != []
    ensures |rest| < |s|
  {
    if kind(s[0]).Flag? && kind(s[0]).takesNext && |s| > 1 then s[2..] else s[1..]
  }

  /** Options that had their arguments keep them, whatever is put behind. */
  lemma {:induction false} OptionsFirst<T>(kind: T -> Kind, s: seq<T>, tail: seq<T>)
    requires Terminated(kind, s) || AllOperands(kind, tail)
    requires !Dangling(kind, s) || tail == []
    ensures Events(kind, Split(kind, s).options + tail) == Events(kind, s)
    ensures Split(kind, Split(kind, s).options + tail) == Parts(Split(kind, s).options, tail)
    decreases |s|
  {
    if s == [] {
      NoEventsInOperands(kind, tail);
      assert [] + tail == tail;
    } else if kind(s[0]).Terminator? {
      assert ([s[0]] + tail)[1..] == tail;
    } else {
      OptionsFirst(kind, Rest(kind, s), tail);
      Unrolled(kind, s, tail);
      assert !Dangling(kind, Rest(kind, s)) || tail == [];
      Continues(kind, s, Split(kind, s).options + tail, Split(kind, Rest(kind, s)).options + tail, tail);
    }
  }

  /** The options of `s`, read one option at a time. */
  ghost predicate StartsAs<T>(kind: T -> Kind, s: seq<T>, t: seq<T>, rest: seq<T>)
    requires s != []
  {
    if kind(s[0]).Operand? then
      t == rest
    else if |s| - |Rest(kind, s)| == 2 then
      |t| >= 2 && t[0] == s[0] && t[1] == s[1] && t[2..] == rest
    else
      |t| >= 1 && t[0] == s[0] && t[1..] == rest
  }

  lemma Unrolled<T>(kind: T -> Kind, s: seq<T>, tail: seq<T>)
    requires s != [] && !kind(s[0]).Terminator?
    ensures StartsAs(kind, s, Split(kind, s).options + tail, Split(kind, Rest(kind, s)).options + tail)
  {
    var options := Split(kind, Rest(kind, s)).options;
    var n := if kind(s[0]).Operand? then 0 else |s| - |Rest(kind, s)|;
    assert Split(kind, s).options == s[..n] + options;
    hide Split;
    PrefixOf(s[..n], options, tail);
  }

  /** What starts as `s` does, and goes on to the same, means the same. */
  lemma Continues<T>(kind: T -> Kind, s: seq<T>, t: seq<T>, rest: seq<T>, tail: seq<T>)
    requires s != [] && !kind(s[0]).Terminator? && StartsAs(kind, s, t, rest)
    requires |s| == 1 && kind(s[0]) == Flag(true) ==> rest == []
    requires Events(kind, rest) == Events(kind, Rest(kind, s))
    requires Split(kind, rest) == Parts(Split(kind, Rest(kind, s)).options, tail)
    ensures Events(kind, t) == Events(kind, s)
    ensures Split(kind, t) == Parts(Split(kind, s).options, tail)
  {
    if kind(s[0]).Flag? {
      assert |t| - |rest| == |s| - |Rest(kind, s)| == Taken(kind(s[0]).takesNext, |s|) == Taken(kind(s[0]).takesNext, |t|);
      assert t[..|t| - |rest|] == s[..|t| - |rest|];
    }
  }

  lemma PrefixOf<T>(a: seq<T>, b: seq<T>, tail: seq<T>)
    ensures a + b + tail == a + (b + tail)
    ensures (a + (b + tail))[..|a|] == a && (a + (b + tail))[|a|..] == b + tail
  {
  }

  /** An option that lacked its argument takes what is put behind it. */
  lemma {:induction false} DanglingTakes<T>(kind: T -> Kind, s: seq<T>, tail: seq<T>)
    requires Dangling(kind, s) && tail != []
    ensures Events(kind, Split(kind, s).options + tail) != Events(kind, s)
    decreases |s|
  {
    Unrolled(kind, s, tail);
    var rest, t := Rest(kind, s), Split(kind, s).options + tail;
    if Events(kind, rest) != [] {
      DanglingTakes(kind, rest, tail);
      if kind(s[0]).Flag? {
        assert Events(kind, s)[1..] == Events(kind, rest);
        assert Events(kind, t)[1..] == Events(kind, Split(kind, rest).options + tail);
      }
    } else {
      assert |s| == 1 && kind(s[0]) == Flag(true);
      assert t == [s[0]] + tail;
      assert Events(kind, t)[0].argument == [t[1]];
    }
  }

  /** Scanning the arguments again as they were left reports the same options
      with the same arguments, and the same operands, if and only if no option
      lacked its argument or there were no operands to take for it. */
  lemma MeaningKept<T>(kind: T -> Kind, s: seq<T>)
    ensures Events(kind, Permuted(kind, s)) == Events(kind, s) <==> !Dangling(kind, s) || Split(kind, s).operands == []
    ensures !Dangling(kind, s) || Split(kind, s).operands == [] ==> Split(kind, Permuted(kind, s)) == Split(kind, s)
  {
    OperandsAre(kind, s);
    if !Dangling(kind, s) || Split(kind, s).operands == [] {
      OptionsFirst(kind, s, Split(kind, s).operands);
    } else {
      DanglingTakes(kind, s, Split(kind, s).operands);
    }
  }

  /** Scan all arguments after the name of the program. */
  method ScanArguments<T>(args: array<T>, kind: T -> Kind) returns (optind: nat)
    requires args.Length >= 1
    modifies args
    ensures args[0] == old(args[0]) && args[1..] == Permuted(kind, old(args[1..]))
    ensures optind == 1 + |Split(kind, old(args[1..])).options|
    ensures Events(kind, args[1..]) == Events(kind, old(args[1..])) <==>
              !Dangling(kind, old(args[1..])) || Split(kind, old(args[1..])).operands == []
  {
    hide Split, Events, Dangling, Outlook;
    ghost var name, was := args[0], args[1..];
    MeaningKept(kind, was);
    var scanner := new Scanner(args, kind);
    scanner.ScanAll();
    optind := scanner.optind;
    AfterFirst(name, Split(kind, was).options, Split(kind, was).operands);
    assert args[1..] == args[..][1..];
  }

  lemma AfterFirst<T>(first: T, a: seq<T>, b: seq<T>)
    ensures ([first] + a + b)[0] == first && ([first] + a + b)[1..] == a + b
  {
  }
}
