/**
  The Redis request parser of `xRedisServerBase` and the reply printer, as a
  machine over the bytes not yet consumed. A request is `*count` followed by
  `$length` strings, each line ended by CR LF.
  */
module Resp {
  import opened Decimal
  import opened Search
  import opened Text

  const TWO_31: int := 0x8000_0000
  const TWO_32: int := 0x1_0000_0000

  /** The longest argument whose length plus two still fits an `int`. */
  const MAX_ARG: int := TWO_31 - 3

  /** The `(int)` cast of a long. */
  function ToInt32(v: int): (n: int)
    ensures -TWO_31 <= n < TWO_31
    ensures 0 <= v < TWO_31 ==> n == v
  {
    var w := v % TWO_32;
    if w < TWO_31 then w else w - TWO_32
  }

  /** The text `strtol` sees: the line up to a carriage return. */
  function CountText(line: string): string {
    if line == "" || line[0] == '\r' || line[0] == '\0' then "" else [line[0]] + CountText(line[1..])
  }

  /** The 11-byte buffer keeps its terminating NUL only if nothing is stored at index 10 or beyond. */
  predicate FitsBuffer(line: string) {
    forall i | 10 <= i < |line| :: line[i] == '\r'
  }

  /** `More`: nothing can be done with these bytes. `Overflow`: the length line overruns its buffer. */
  datatype Length = More | Count(n: int, used: nat) | Overflow

  /** `ParaseLength` on the bytes from the type byte on. */
  function ParseLength(s: string): (r: Length)
    ensures r.Count? ==> r.n != 0 && 0 < r.used <= |s|
  {
    var lf := IndexOf(s, "\n");
    if lf < 1 then More
    else if !FitsBuffer(s[1..lf]) then Overflow
    else
      var n := ToInt32(ScanInt(CountText(s[1..lf])));
      if n == 0 then More else Count(n, lf + 1)
  }

  datatype Data = NoData | Arg(text: string, used: nat) | BadData

  /** `ParaseData`; a negative length would be handed to the allocator, one near 2^31 overflows its `int`. */
  function ParseData(s: string): (r: Data)
    ensures r.Arg? ==> 0 < r.used <= |s|
  {
    if s == "" || s[0] != '$' then NoData
    else
      match ParseLength(s)
      case More => NoData
      case Overflow => BadData
      case Count(n, used) =>
        if n > MAX_ARG then BadData
        else if |s| - used < n + 2 then NoData
        else if n < 0 then BadData
        else Arg(s[used..used + n], used + n + 2)
  }

  // ---- The machine --------------------------------------------------------------------------

  /** The bytes behind `parsed`, the arguments still to come and those already read. */
  datatype Machine = Machine(rest: string, argnum: int, argv: seq<string>)
  {
    function With(more: string): Machine {
      this.(rest := rest + more)
    }
  }

  const IDLE: Machine := Machine("", 0, [])

  /** `done` holds the finished commands; `Stuck` waits for more bytes, `Fault` is undefined behaviour. */
  datatype Move = Stuck | Fault | Next(machine: Machine, done: seq<seq<string>>)

  function HeaderMove(m: Machine): Move {
    if m.rest == "" || m.rest[0] != '*' then Stuck
    else
      match ParseLength(m.rest)
      case More => Stuck
      case Overflow => Fault
      case Count(n, used) => Next(Machine(m.rest[used..], n, []), [])
  }

  function ArgMove(m: Machine): Move {
    match ParseData(m.rest)
    case NoData => Stuck
    case BadData => Fault
    case Arg(text, used) =>
      var argv := m.argv + [text];
      if m.argnum == 1 then Next(Machine(m.rest[used..], 0, []), [argv])
      else Next(Machine(m.rest[used..], m.argnum - 1, argv), [])
  }

  /** Reading one header or one argument. */
  function Advance(m: Machine): (v: Move)
    ensures v.Next? ==> |v.machine.rest| < |m.rest|
  {
    if m.argnum == 0 then HeaderMove(m) else if m.argnum > 0 then ArgMove(m) else Stuck
  }

  datatype Outcome = Outcome(machine: Machine, done: seq<seq<string>>, fault: bool)
  {
    /** This outcome with commands finished before it. */
    function After(earlier: seq<seq<string>>): Outcome {
      this.(done := earlier + done)
    }
  }

  /** `ProcessCmd` repeated until it returns false. */
  function Drain(m: Machine): Outcome
    decreases |m.rest|
  {
    match Advance(m)
    case Stuck => Outcome(m, [], false)
    case Fault => Outcome(m, [], true)
    case Next(n, done) => Drain(n).After(done)
  }

  function Feed(m: Machine, chunks: seq<string>): Outcome
    decreases |chunks|
  {
    if chunks == [] then Outcome(m, [], false)
    else
      var r := Drain(m.With(chunks[0]));
      if r.fault then r else Feed(r.machine, chunks[1..]).After(r.done)
  }

  // ---- Resumability ---------------------------------------------------------------------------

  lemma LengthExtends(s: string, more: string)
    requires !ParseLength(s).More?
    ensures ParseLength(s + more) == ParseLength(s)
  {
    FoundStays(s, "\n", more);
    var lf := IndexOf(s, "\n");
    assert (s + more)[1..lf] == s[1..lf];
  }

  lemma DataExtends(s: string, more: string)
    requires !ParseData(s).NoData?
    ensures ParseData(s + more) == ParseData(s)
  {
    LengthExtends(s, more);
    if ParseData(s).Arg? {
      var Count(n, used) := ParseLength(s);
      assert (s + more)[used..used + n] == s[used..used + n];
    }
  }

  lemma RestExtends(s: string, more: string, used: nat)
    requires used <= |s|
    ensures (s + more)[used..] == s[used..] + more
  {
  }

  lemma AdvanceExtends(m: Machine, more: string)
    requires !Advance(m).Stuck?
    ensures Advance(m).Fault? ==> Advance(m.With(more)).Fault?
    ensures Advance(m).Next? ==>
              Advance(m.With(more)) == Next(Advance(m).machine.With(more), Advance(m).done)
  {
    if m.argnum == 0 {
      LengthExtends(m.rest, more);
      if Advance(m).Next? { RestExtends(m.rest, more, ParseLength(m.rest).used); }
    } else {
      DataExtends(m.rest, more);
      if Advance(m).Next? { RestExtends(m.rest, more, ParseData(m.rest).used); }
    }
  }

  lemma AfterTwice(o: Outcome, a: seq<seq<string>>, b: seq<seq<string>>)
    ensures o.After(b).After(a) == o.After(a + b) && o.After([]) == o
  {
    assert a + (b + o.done) == (a + b) + o.done;
  }

  /** Draining, then receiving more and draining again, is draining everything at once. */
  lemma {:induction false} DrainExtends(m: Machine, more: string)
    ensures var d := Drain(m);
            Drain(m.With(more)) == if d.fault then Outcome(d.machine.With(more), d.done, true)
                                   else Drain(d.machine.With(more)).After(d.done)
    decreases |m.rest|
  {
    match Advance(m)
    case Stuck => AfterTwice(Drain(m.With(more)), [], []);
    case Fault => AdvanceExtends(m, more);
    case Next(n, done) =>
      AdvanceExtends(m, more);
      DrainExtends(n, more);
      AfterTwice(Drain(Drain(n).machine.With(more)), done, Drain(n).done);
  }

  /** After a fault nothing but the commands finished before it counts. */
  function Visible(o: Outcome): Outcome {
    if o.fault then o.(machine := IDLE) else o
  }

  ghost predicate Settled(m: Machine) {
    Advance(m).Stuck?
  }

  lemma {:induction false} DrainSettles(m: Machine)
    requires !Drain(m).fault
    ensures Settled(Drain(m).machine)
    decreases |m.rest|
  {
    if Advance(m).Next? { DrainSettles(Advance(m).machine); }
  }

  lemma WithNothing(m: Machine)
    ensures m.With("") == m
  {
    assert m.rest + "" == m.rest;
  }

  lemma WithBoth(m: Machine, x: string, y: string)
    ensures m.With(x).With(y) == m.With(x + y)
  {
    assert (m.rest + x) + y == m.rest + (x + y);
  }

  /**
    Resumability, for every byte stream and every way of cutting it: the same
    commands come out, in the same order, as from the stream in one piece.
    */
  lemma {:induction false} CuttingDoesNotMatter(m: Machine, chunks: seq<string>)
    requires Settled(m)
    ensures Visible(Feed(m, chunks)) == Visible(Drain(m.With(Concat(chunks))))
    decreases |chunks|
  {
    if chunks == [] {
      WithNothing(m);
    } else {
      var x, y := chunks[0], Concat(chunks[1..]);
      var d := Drain(m.With(x));
      DrainExtends(m.With(x), y);
      WithBoth(m, x, y);
      if !d.fault {
        DrainSettles(m.With(x));
        CuttingDoesNotMatter(d.machine, chunks[1..]);
      }
    }
  }

  // ---- The printer and the round trip -----------------------------------------------------------

  /** `SendBulkReply` */
  function Bulk(s: string): string {
    "$" + Digits(|s|) + "\r\n" + s + "\r\n"
  }

  function Bulks(args: seq<string>): string {
    if args == [] then "" else Bulk(args[0]) + Bulks(args[1..])
  }

  /** `SendMultiBulkReply` */
  function MultiBulk(args: seq<string>): string {
    "*" + Digits(|args|) + "\r\n" + Bulks(args)
  }

  function Requests(commands: seq<seq<string>>): string {
    if commands == [] then "" else MultiBulk(commands[0]) + Requests(commands[1..])
  }

  /** A command the parser can take: no empty list, no empty string, lengths within an int. */
  ghost predicate Sendable(args: seq<string>) {
    0 < |args| < TWO_31 && forall i | 0 <= i < |args| :: 0 < |args[i]| <= MAX_ARG
  }

  lemma {:induction false} CountTextOfDigits(d: string)
    requires AllDigits(d)
    ensures CountText(d + "\r") == d
    decreases |d|
  {
    if d == "" {
      assert d + "\r" == "\r";
    } else {
      CountTextOfDigits(d[1..]);
      assert (d + "\r")[1..] == d[1..] + "\r";
      assert d == [d[0]] + d[1..];
    }
  }

  lemma IntHasTenDigits(n: nat)
    requires n < TWO_31
    ensures |Digits(n)| <= 10
  {
    assert Pow10(5) == 100000 && Pow10(10) == Pow10(5) * 100000;
    DigitsLength(n, 10);
  }

  lemma LineEndIsFound(c: char, d: string, rest: string)
    requires AllDigits(d) && c != '\n'
    ensures IndexOf([c] + d + "\r\n" + rest, "\n") == |d| + 2
  {
    var s := [c] + d + "\r\n" + rest;
    assert s[|d| + 2..|d| + 3] == "\n";
    assert At(s, "\n", |d| + 2);
    forall j | 0 <= j < |d| + 2 ensures !At(s, "\n", j) {
      AtChar(s, "\n", j, 0);
      assert s[j] == if j == 0 then c else if j <= |d| then d[j - 1] else '\r';
    }
    FirstUnique(s, "\n", |d| + 2);
  }

  /** A printed length is read back, and its line consumed exactly. */
  lemma PrintedLength(c: char, n: nat, rest: string)
    requires c != '\n' && 0 < n < TWO_31
    ensures ParseLength([c] + Digits(n) + "\r\n" + rest) == Count(n, |Digits(n)| + 3)
  {
    var d := Digits(n);
    var s := [c] + d + "\r\n" + rest;
    LineEndIsFound(c, d, rest);
    assert s[1..|d| + 2] == d + "\r";
    IntHasTenDigits(n);
    CountTextOfDigits(d);
    ScanDigits(n, "");
    assert d + "" == d;
  }

  lemma BulkShape(a: string, rest: string)
    ensures Bulk(a) + rest == ['$'] + Digits(|a|) + "\r\n" + (a + "\r\n" + rest)
    ensures |Bulk(a)| == |Digits(|a|)| + |a| + 5
  {
  }

  lemma BulkParts(a: string, rest: string)
    ensures |Bulk(a)| == |Digits(|a|)| + |a| + 5
    ensures (Bulk(a) + rest)[|Digits(|a|)| + 3..|Digits(|a|)| + 3 + |a|] == a
    ensures (Bulk(a) + rest)[|Bulk(a)|..] == rest
  {
    var head, end := "$" + Digits(|a|) + "\r\n", "\r\n" + rest;
    assert Bulk(a) + rest == head + a + end;
    assert (head + a + end)[|head|..|head| + |a|] == a;
  }

  lemma PrintedBulk(a: string, rest: string)
    requires 0 < |a| <= MAX_ARG
    ensures ParseData(Bulk(a) + rest) == Arg(a, |Bulk(a)|)
    ensures (Bulk(a) + rest)[|Bulk(a)|..] == rest
  {
    BulkShape(a, rest);
    BulkParts(a, rest);
    PrintedLength('$', |a|, a + "\r\n" + rest);
  }

  /** One argument read: the machine goes on with the rest. */
  lemma PrintedArg(a: string, rest: string, argnum: nat, argv: seq<string>)
    requires 0 < |a| <= MAX_ARG && argnum > 0
    ensures argnum == 1 ==>
              Drain(Machine(Bulk(a) + rest, 1, argv)) == Drain(Machine(rest, 0, [])).After([argv + [a]])
    ensures argnum > 1 ==>
              Drain(Machine(Bulk(a) + rest, argnum, argv)) == Drain(Machine(rest, argnum - 1, argv + [a]))
  {
    PrintedBulk(a, rest);
    if argnum > 1 { AfterTwice(Drain(Machine(rest, argnum - 1, argv + [a])), [], []); }
  }

  lemma FirstBulk(args: seq<string>, rest: string)
    requires args != []
    ensures Bulks(args) + rest == Bulk(args[0]) + (Bulks(args[1..]) + rest)
  {
  }

  lemma MoveFirst(argv: seq<string>, args: seq<string>)
    requires args != []
    ensures (argv + [args[0]]) + args[1..] == argv + args
  {
  }

  lemma {:induction false} PrintedArgs(args: seq<string>, argv: seq<string>, rest: string)
    requires |args| > 0 && forall i | 0 <= i < |args| :: 0 < |args[i]| <= MAX_ARG
    ensures Drain(Machine(Bulks(args) + rest, |args|, argv)) == Drain(Machine(rest, 0, [])).After([argv + args])
    decreases |args|
  {
    var a, others := args[0], args[1..];
    FirstBulk(args, rest);
    MoveFirst(argv, args);
    PrintedArg(a, Bulks(others) + rest, |args|, argv);
    if others == [] {
      assert Bulks(others) + rest == rest;
      assert argv + [a] == (argv + [a]) + others;
    } else {
      PrintedArgs(others, argv + [a], rest);
    }
  }

  /** The request line read: the machine waits for the arguments. */
  lemma PrintedHeader(n: nat, rest: string)
    requires 0 < n < TWO_31
    ensures Drain(Machine("*" + Digits(n) + "\r\n" + rest, 0, [])) == Drain(Machine(rest, n, []))
  {
    var s := "*" + Digits(n) + "\r\n" + rest;
    PrintedLength('*', n, rest);
    assert s[|Digits(n)| + 3..] == rest;
    AfterTwice(Drain(Machine(rest, n, [])), [], []);
  }

  lemma PrintedCommand(args: seq<string>, rest: string)
    requires Sendable(args)
    ensures Drain(Machine(MultiBulk(args) + rest, 0, [])) == Drain(Machine(rest, 0, [])).After([args])
  {
    assert MultiBulk(args) + rest == "*" + Digits(|args|) + "\r\n" + (Bulks(args) + rest);
    PrintedHeader(|args|, Bulks(args) + rest);
    PrintedArgs(args, [], rest);
    assert [] + args == args;
  }

  lemma {:induction false} PrintedCommands(commands: seq<seq<string>>, rest: string)
    requires forall i | 0 <= i < |commands| :: Sendable(commands[i])
    ensures Drain(Machine(Requests(commands) + rest, 0, [])) == Drain(Machine(rest, 0, [])).After(commands)
    decreases |commands|
  {
    if commands == [] {
      assert Requests(commands) + rest == rest;
      AfterTwice(Drain(Machine(rest, 0, [])), [], []);
    } else {
      var more := Requests(commands[1..]) + rest;
      assert Requests(commands) + rest == MultiBulk(commands[0]) + more;
      PrintedCommand(commands[0], more);
      PrintedCommands(commands[1..], rest);
      AfterTwice(Drain(Machine(rest, 0, [])), [commands[0]], commands[1..]);
      assert commands == [commands[0]] + commands[1..];
    }
  }

  /** Printed commands, received in any pieces: each is delivered once and in order, and nothing is left over. */
  lemma RequestRoundTrip(commands: seq<seq<string>>, chunks: seq<string>)
    requires forall i | 0 <= i < |commands| :: Sendable(commands[i])
    requires Concat(chunks) == Requests(commands)
    ensures Feed(IDLE, chunks) == Outcome(IDLE, commands, false)
  {
    CuttingDoesNotMatter(IDLE, chunks);
    assert IDLE.With(Concat(chunks)) == Machine(Requests(commands) + "", 0, []);
    PrintedCommands(commands, "");
    assert commands + [] == commands;
  }

  // ---- The byte the read callback holds back -----------------------------------------------------

  /** `ReadCallback` takes what has arrived only once there are two bytes of it. */
  function Held(input: string, chunks: seq<string>): (r: string)
    ensures |input| < 2 ==> |r| < 2
    decreases |chunks|
  {
    if chunks == [] then input
    else if |input + chunks[0]| < 2 then Held(input + chunks[0], chunks[1..])
    else Held("", chunks[1..])
  }

  /** What it hands to the parser, call by call. */
  function Batches(input: string, chunks: seq<string>): seq<string>
    decreases |chunks|
  {
    if chunks == [] then []
    else if |input + chunks[0]| < 2 then [""] + Batches(input + chunks[0], chunks[1..])
    else [input + chunks[0]] + Batches("", chunks[1..])
  }

  lemma {:induction false} BatchesAndHeld(input: string, chunks: seq<string>)
    ensures Concat(Batches(input, chunks)) + Held(input, chunks) == input + Concat(chunks)
    decreases |chunks|
  {
    if chunks == [] {
      assert "" + input == input + "";
    } else {
      var x := input + chunks[0];
      assert input + Concat(chunks) == x + Concat(chunks[1..]);
      if |x| < 2 {
        BatchesAndHeld(x, chunks[1..]);
        ConcatCons("", Batches(x, chunks[1..]));
        assert "" + Concat(Batches(x, chunks[1..])) == Concat(Batches(x, chunks[1..]));
      } else {
        BatchesAndHeld("", chunks[1..]);
        ConcatCons(x, Batches("", chunks[1..]));
        assert "" + Concat(chunks[1..]) == Concat(chunks[1..]);
      }
    }
  }

  function Trim(s: string): string
    requires s != ""
  {
    s[..|s| - 1]
  }

  lemma TrimLast(a: string, b: string)
    requires b != ""
    ensures Trim(a + b) == a + Trim(b)
  {
  }

  lemma ShortArg(a: string, argv: seq<string>)
    requires 0 < |a| <= MAX_ARG
    ensures Bulk(a) != "" && Settled(Machine(Trim(Bulk(a)), 1, argv))
  {
    var s := Trim(Bulk(a));
    assert s == ['$'] + Digits(|a|) + "\r\n" + (a + "\r");
    PrintedLength('$', |a|, a + "\r");
  }

  lemma SettledIsDrained(m: Machine)
    requires Settled(m)
    ensures Drain(m) == Outcome(m, [], false)
  {
  }

  lemma ShortTail(a: string, more: seq<string>, argnum: nat, argv: seq<string>)
    requires 0 < |a| <= MAX_ARG && argnum > 1 && Bulks(more) != ""
    ensures Bulk(a) + Bulks(more) != ""
    ensures Drain(Machine(Trim(Bulk(a) + Bulks(more)), argnum, argv)) ==
            Drain(Machine(Trim(Bulks(more)), argnum - 1, argv + [a]))
  {
    TrimLast(Bulk(a), Bulks(more));
    PrintedArg(a, Trim(Bulks(more)), argnum, argv);
  }

  lemma {:induction false} ShortArgs(args: seq<string>, argv: seq<string>)
    requires |args| > 0 && forall i | 0 <= i < |args| :: 0 < |args[i]| <= MAX_ARG
    ensures Bulks(args) != ""
    ensures var o := Drain(Machine(Trim(Bulks(args)), |args|, argv)); o.done == [] && !o.fault
    decreases |args|
  {
    hide Drain;
    var a, more := args[0], args[1..];
    if |args| == 1 {
      ShortArg(a, argv);
      SettledIsDrained(Machine(Trim(Bulk(a)), 1, argv));
      assert Bulks(args) == Bulk(a) + "" == Bulk(a);
    } else {
      ShortArgs(more, argv + [a]);
      ShortTail(a, more, |args|, argv);
    }
  }

  lemma ShortCommand(args: seq<string>)
    requires Sendable(args)
    ensures MultiBulk(args) != ""
    ensures var o := Drain(Machine(Trim(MultiBulk(args)), 0, [])); o.done == [] && !o.fault
  {
    ShortArgs(args, []);
    var head := "*" + Digits(|args|) + "\r\n";
    TrimLast(head, Bulks(args));
    PrintedHeader(|args|, Trim(Bulks(args)));
  }

  lemma {:induction false} LastRequest(commands: seq<seq<string>>)
    requires commands != []
    ensures Requests(commands) == Requests(commands[..|commands| - 1]) + MultiBulk(commands[|commands| - 1])
    decreases |commands|
  {
    var n := |commands|;
    if n > 1 {
      LastRequest(commands[1..]);
      assert commands[1..][..n - 2] == commands[..n - 1][1..];
    }
  }

  /**
    What the connection delivers of printed commands, for every cutting: all
    of them exactly when the read callback holds no byte back, and all but the
    last one when it does.
    */
  lemma DeliveredIff(commands: seq<seq<string>>, chunks: seq<string>)
    requires commands != [] && forall i | 0 <= i < |commands| :: Sendable(commands[i])
    requires Concat(chunks) == Requests(commands)
    ensures var o := Feed(IDLE, Batches("", chunks));
            !o.fault &&
            o.done == if Held("", chunks) == "" then commands else commands[..|commands| - 1]
    ensures Feed(IDLE, Batches("", chunks)).done == commands <==> Held("", chunks) == ""
  {
    var taken, held := Batches("", chunks), Held("", chunks);
    BatchesAndHeld("", chunks);
    assert Concat(taken) + held == Requests(commands);
    if held == "" {
      assert Concat(taken) == Requests(commands);
      RequestRoundTrip(commands, taken);
    } else {
      var first, last := commands[..|commands| - 1], commands[|commands| - 1];
      LastRequest(commands);
      ShortCommand(last);
      TrimLast(Requests(first), MultiBulk(last));
      assert Concat(taken) == Trim(Concat(taken) + held);
      CuttingDoesNotMatter(IDLE, taken);
      assert IDLE.With(Concat(taken)) == Machine(Requests(first) + Trim(MultiBulk(last)), 0, []);
      PrintedCommands(first, Trim(MultiBulk(last)));
      assert first + [] == first;
    }
  }

  // ---- What the parser cannot take ---------------------------------------------------------------

  /** Whatever follows, a length of zero is taken for an unfinished line. */
  lemma ZeroIsNoLength(c: char, more: string)
    requires c != '\n'
    ensures ParseLength([c] + "0" + "\r\n" + more).More?
  {
    var s := [c] + "0" + "\r\n" + more;
    LineEndIsFound(c, "0", more);
    assert s[1..3] == "0\r";
    CountTextOfDigits("0");
    assert "0" + "\r" == "0\r";
    assert Digits(0) == "0";
    ScanDigits(0, "");
    assert "0" + "" == "0";
  }

  /** An empty argument is never delivered: the parser waits for ever in front of it. */
  lemma EmptyArgumentStalls(argnum: nat, argv: seq<string>, more: string)
    requires argnum > 0
    ensures Drain(Machine(Bulk("") + more, argnum, argv)) == Outcome(Machine(Bulk("") + more, argnum, argv), [], false)
  {
    assert Digits(0) == "0";
    assert Bulk("") + more == ['$'] + "0" + "\r\n" + ("\r\n" + more);
    ZeroIsNoLength('$', "\r\n" + more);
  }

  lemma EmptyListStalls(more: string)
    ensures Drain(Machine(MultiBulk([]) + more, 0, [])) == Outcome(Machine(MultiBulk([]) + more, 0, []), [], false)
  {
    assert Digits(0) == "0" && Bulks([]) == "";
    assert MultiBulk([]) + more == ['*'] + "0" + "\r\n" + more;
    ZeroIsNoLength('*', more);
  }

  lemma {:induction false} ArgumentsStall(args: seq<string>, argv: seq<string>, more: string)
    requires "" in args && forall i | 0 <= i < |args| :: |args[i]| <= MAX_ARG
    ensures var o := Drain(Machine(Bulks(args) + more, |args|, argv)); o.done == [] && !o.fault
    decreases |args|
  {
    hide Drain, Bulk, Bulks;
    var a, others := args[0], args[1..];
    var k :| 0 <= k < |args| && args[k] == "";
    assert k > 0 ==> others[k - 1] == "";
    FirstBulk(args, more);
    if a == "" {
      EmptyArgumentStalls(|args|, argv, Bulks(others) + more);
    } else {
      PrintedArg(a, Bulks(others) + more, |args|, argv);
      ArgumentsStall(others, argv + [a], more);
    }
  }

  /** A command whose lengths fit their `int`. */
  ghost predicate Printable(args: seq<string>) {
    |args| < TWO_31 && forall i | 0 <= i < |args| :: |args[i]| <= MAX_ARG
  }

  predicate HasNothingEmpty(args: seq<string>) {
    args != [] && "" !in args
  }

  lemma SendableIff(args: seq<string>)
    requires Printable(args)
    ensures Sendable(args) <==> HasNothingEmpty(args)
  {
  }

  lemma CommandStalls(args: seq<string>, more: string)
    requires Printable(args) && !HasNothingEmpty(args)
    ensures var o := Drain(Machine(MultiBulk(args) + more, 0, [])); o.done == [] && !o.fault
  {
    hide Drain;
    if args == [] {
      EmptyListStalls(more);
    } else {
      assert MultiBulk(args) + more == "*" + Digits(|args|) + "\r\n" + (Bulks(args) + more);
      PrintedHeader(|args|, Bulks(args) + more);
      ArgumentsStall(args, [], more);
    }
  }

  /** The commands in front of the first one with something empty in it. */
  function Deliverable(commands: seq<seq<string>>): seq<seq<string>> {
    if commands == [] || !HasNothingEmpty(commands[0]) then [] else [commands[0]] + Deliverable(commands[1..])
  }

  lemma {:induction false} DeliverableIff(commands: seq<seq<string>>)
    ensures Deliverable(commands) == commands <==> forall i | 0 <= i < |commands| :: HasNothingEmpty(commands[i])
    decreases |commands|
  {
    hide HasNothingEmpty;
    if commands != [] {
      var first, rest := commands[0], commands[1..];
      DeliverableIff(rest);
      assert commands == [first] + rest;
      assert ([first] + Deliverable(rest))[1..] == Deliverable(rest);
    }
  }

  lemma NothingIsDelivered()
    ensures Drain(Machine("", 0, [])).done == [] && !Drain(Machine("", 0, [])).fault
  {
  }

  lemma {:induction false} PrefixIsDelivered(commands: seq<seq<string>>)
    requires forall i | 0 <= i < |commands| :: Printable(commands[i])
    ensures var o := Drain(Machine(Requests(commands), 0, [])); o.done == Deliverable(commands) && !o.fault
    decreases |commands|
  {
    hide Drain, HasNothingEmpty, Printable, MultiBulk;
    if commands != [] {
      var more := Requests(commands[1..]);
      SendableIff(commands[0]);
      if HasNothingEmpty(commands[0]) {
        PrintedCommand(commands[0], more);
        PrefixIsDelivered(commands[1..]);
      } else {
        CommandStalls(commands[0], more);
      }
    } else {
      NothingIsDelivered();
    }
  }

  /**
    Printed commands, received in any pieces, are delivered up to the first one
    that is an empty list or has an empty argument: all of them if and only if
    there is none.
    */
  lemma AllDeliveredIff(commands: seq<seq<string>>, chunks: seq<string>)
    requires forall i | 0 <= i < |commands| :: Printable(commands[i])
    requires Concat(chunks) == Requests(commands)
    ensures !Feed(IDLE, chunks).fault && Feed(IDLE, chunks).done == Deliverable(commands)
    ensures Feed(IDLE, chunks).done == commands <==> forall i | 0 <= i < |commands| :: HasNothingEmpty(commands[i])
  {
    CuttingDoesNotMatter(IDLE, chunks);
    assert IDLE.With(Concat(chunks)) == Machine(Requests(commands), 0, []);
    PrefixIsDelivered(commands);
    DeliverableIff(commands);
  }

  // ---- Nothing empty is ever delivered --------------------------------------------------------------

  ghost predicate AllFull(commands: seq<seq<string>>) {
    forall i | 0 <= i < |commands| :: HasNothingEmpty(commands[i])
  }

  /** No empty argument has been read, and between commands none at all. */
  predicate Full(m: Machine) {
    "" !in m.argv && (m.argnum == 0 ==> m.argv == [])
  }

  lemma AdvanceIsFull(m: Machine)
    requires Full(m) && Advance(m).Next?
    ensures Full(Advance(m).machine) && AllFull(Advance(m).done)
  {
    if m.argnum > 0 { ArgIsFull(m.rest); }
  }

  lemma ArgIsFull(s: string)
    ensures ParseData(s).Arg? ==> ParseData(s).text != ""
  {
  }

  lemma {:induction false} DrainIsFull(m: Machine)
    requires Full(m)
    ensures AllFull(Drain(m).done)
    decreases |m.rest|
  {
    hide Advance;
    if Advance(m).Next? {
      AdvanceIsFull(m);
      DrainIsFull(Advance(m).machine);
    }
  }

  /** Whatever bytes arrive and however they are cut, no command delivered is empty or has an empty argument. */
  lemma NothingEmptyIsDelivered(chunks: seq<string>)
    ensures AllFull(Feed(IDLE, chunks).done)
  {
    hide Drain, Feed;
    var m := IDLE.With(Concat(chunks));
    CuttingDoesNotMatter(IDLE, chunks);
    DrainIsFull(m);
  }
}
