/**
  The connector of `common/xRedisServerLib.cpp`: its command buffer, the parse
  offset and the argument vector, updated in place by the read callback, proved
  against the machine of module Resp.
  */
module RespServer {
  import opened Decimal
  import opened Search
  import opened Text
  import opened Resp

  /** What the length loop leaves in one slot of its buffer. */
  function Slot(line: string, k: nat): char {
    if k < |line| && line[k] != '\r' then line[k] else '\0'
  }

  lemma {:induction false} SlotsHoldCount(line: string, tmp: string)
    requires |tmp| > |CountText(line)|
    requires forall k | 0 <= k < |tmp| :: tmp[k] == Slot(line, k)
    ensures CString(tmp) == CountText(line)
    decreases |line|
  {
    assert tmp[0] == Slot(line, 0);
    if line != "" && line[0] != '\r' && line[0] != '\0' {
      forall k | 0 <= k < |tmp| - 1 ensures tmp[1..][k] == Slot(line[1..], k) {
        assert tmp[k + 1] == Slot(line, k + 1);
      }
      SlotsHoldCount(line[1..], tmp[1..]);
    }
  }

  lemma {:induction false} CountTextFits(line: string, bound: nat)
    requires forall i | bound <= i < |line| :: line[i] == '\r'
    ensures |CountText(line)| <= bound
    decreases |line|
  {
    if line != "" && line[0] != '\r' && line[0] != '\0' {
      assert bound > 0;
      forall i | bound - 1 <= i < |line[1..]| ensures line[1..][i] == '\r' {
        assert line[i + 1] == '\r';
      }
      CountTextFits(line[1..], bound - 1);
    }
  }

  /** `pos` is 0 when nothing can be consumed; `overflow` when the line overruns the 11-byte buffer. */
  method ParaseLength(ptr: string) returns (pos: nat, headCount: int, overflow: bool)
    requires ptr != "" && ptr[0] != '\n'
    ensures match ParseLength(ptr)
            case More => pos == 0 && !overflow
            case Overflow => overflow
            case Count(n, used) => !overflow && headCount == n && pos == used
  {
    pos, headCount, overflow := 0, 0, false;
    var lf := IndexOf(ptr, "\n");
    if lf < 0 { return; }
    LineFeedAt(ptr);
    ghost var line := ptr[1..lf];
    var tmp := new char[11](_ => '\0');
    var i := 0;
    while ptr[1 + i] != '\n'
      invariant 0 <= i <= |line|
      invariant ptr[lf] == '\n' && |line| == lf - 1
      invariant forall k | 10 <= k < i :: line[k] == '\r'
      invariant forall k | 0 <= k < 11 :: tmp[k] == if k < i then Slot(line, k) else '\0'
      decreases |line| - i
    {
      assert ptr[1 + i] == line[i];
      if ptr[1 + i] == '\r' {
        i := i + 1;
        continue;
      }
      if i >= 10 {
        overflow := true;
        return;
      }
      tmp[i] := ptr[1 + i];
      i := i + 1;
    }
    assert i == |line|;
    CountTextFits(line, 10);
    SlotsHoldCount(line, tmp[..]);
    headCount := ToInt32(ScanInt(CString(tmp[..])));
    if headCount != 0 { pos := i + 2; }
  }

  /** The first line feed ends the line, and there is none inside it. */
  lemma LineFeedAt(s: string)
    requires s != "" && s[0] != '\n' && IndexOf(s, "\n") >= 0
    ensures var lf := IndexOf(s, "\n");
            0 < lf < |s| && s[lf] == '\n' && forall k | 0 <= k < lf :: s[k] != '\n'
  {
    var lf := IndexOf(s, "\n");
    AtChar(s, "\n", lf, 0);
    forall k | 0 <= k < lf ensures s[k] != '\n' {
      assert !At(s, "\n", k);
      assert s[k..k + 1] == [s[k]];
    }
  }

  /** What is still to come when all, or some, of the arguments have been read. */
  function Resume(m: Machine): Outcome {
    if m.argnum == 0 then Drain(Machine(m.rest, 0, [])).After([m.argv]) else Drain(m)
  }

  /** One argument read, or none to be had. */
  lemma ArgStep(m: Machine)
    requires m.argnum > 0
    ensures match ParseData(m.rest)
            case NoData => Resume(m) == Outcome(m, [], false)
            case BadData => Resume(m) == Outcome(m, [], true)
            case Arg(text, used) => Resume(m) == Resume(Machine(m.rest[used..], m.argnum - 1, m.argv + [text]))
  {
    match ParseData(m.rest)
    case NoData =>
    case BadData =>
    case Arg(text, used) =>
      if m.argnum > 1 { AfterTwice(Drain(Machine(m.rest[used..], m.argnum - 1, m.argv + [text])), [], []); }
  }

  lemma NothingMore(m: Machine)
    requires m.argnum < 0
    ensures Drain(m) == Outcome(m, [], false)
  {
  }

  lemma OneChunk(input: string, one: seq<string>)
    requires |one| == 1
    ensures var x := input + one[0];
            Held(input, one) == (if |x| < 2 then x else "") && Batches(input, one) == [if |x| < 2 then "" else x]
  {
    var x, none := input + one[0], one[1..];
    assert Held(x, none) == x && Held("", none) == "";
    assert Batches(x, none) == [] && Batches("", none) == [];
  }

  /** One call of the read callback takes the first batch and leaves the others. */
  lemma TurnOfSession(m: Machine, input: string, chunks: seq<string>, done: seq<seq<string>>)
    requires chunks != []
    ensures var x, held := Batches(input, [chunks[0]])[0], Held(input, [chunks[0]]);
            var r := Drain(m.With(x)).After(done);
            Held(input, chunks) == Held(held, chunks[1..]) &&
            Feed(m, Batches(input, chunks)).After(done) ==
            if r.fault then r else Feed(r.machine, Batches(held, chunks[1..])).After(r.done)
  {
    var x, held := Batches(input, [chunks[0]])[0], Held(input, [chunks[0]]);
    var later := Batches(held, chunks[1..]);
    OneChunk(input, [chunks[0]]);
    assert Batches(input, chunks) == [x] + later;
    assert ([x] + later)[1..] == later;
    var d := Drain(m.With(x));
    if !d.fault { AfterTwice(Feed(d.machine, later), done, d.done); }
  }

  lemma BulkSent(output: string, result: seq<string>, i: nat)
    requires i < |result|
    ensures (output + Bulk(result[i])) + Bulks(result[i + 1..]) == output + Bulks(result[i..])
  {
    assert result[i..][1..] == result[i + 1..];
  }

  lemma OneMoreDone(before: seq<seq<string>>, done: seq<seq<string>>)
    requires |done| == |before| + 1 && done[..|before|] == before
    ensures done == before + [done[|before|]]
  {
  }

  lemma AfterNothing(m: Machine, done: seq<seq<string>>, fault: bool)
    ensures Outcome(m, [], fault).After(done) == Outcome(m, done, fault)
  {
  }

  lemma NothingToRun(m: Machine, done: seq<seq<string>>)
    ensures m.rest == "" ==> Drain(m).After(done) == Outcome(m, done, false)
  {
    AfterNothing(m, done, false);
  }


  class Connector {
    /** Bytes that have arrived and that the read callback has not taken yet. */
    var input: string
    var cmdbuffer: string
    var parsed: nat
    var argnum: int
    var argv: seq<string>
    /** Whether the argument vector has been allocated. */
    var vector: bool
    /** The commands handed to their handlers so far. */
    var done: seq<seq<string>>
    /** Set where the C++ code would leave its buffers. */
    var fault: bool
    /** Bytes written to the client. */
    var output: string

    /** Between commands nothing is parsed, allocated or collected. */
    ghost predicate Valid()
      reads this
    {
      && parsed <= |cmdbuffer|
      && (argnum == 0 ==> parsed == 0 && argv == [] && !vector)
      && (argnum != 0 ==> vector)
    }

    ghost function Abs(): Machine
      requires Valid()
      reads this
    {
      Machine(cmdbuffer[parsed..], argnum, argv)
    }

    constructor ()
      ensures Valid() && Abs() == IDLE && input == "" && done == [] && !fault && output == ""
    {
      input, cmdbuffer, parsed, argnum, argv, vector, done, fault, output := "", "", 0, 0, [], false, [], false, "";
    }

    /** Releases the arguments and drops the parsed bytes; what is not parsed yet stays. */
    method FreeArg()
      requires parsed <= |cmdbuffer|
      modifies this`cmdbuffer, this`parsed, this`argnum, this`argv, this`vector
      ensures Valid() && Abs() == Machine(old(cmdbuffer[parsed..]), 0, [])
    {
      cmdbuffer := cmdbuffer[parsed..];
      argv, vector, argnum, parsed := [], false, 0, 0;
    }

    /** Hands the finished command to its handler. */
    method DoCmd()
      requires parsed <= |cmdbuffer|
      modifies this`cmdbuffer, this`parsed, this`argnum, this`argv, this`vector, this`done
      ensures Valid() && Abs() == Machine(old(cmdbuffer[parsed..]), 0, [])
      ensures done == old(done) + [old(argv)]
    {
      done := done + [argv];
      FreeArg();
    }

    method ParaseData() returns (p: nat)
      requires Valid() && argnum > 0 && !fault
      modifies this`argv, this`argnum, this`fault
      ensures match ParseData(cmdbuffer[parsed..])
              case NoData => p == 0 && argv == old(argv) && argnum == old(argnum) && !fault
              case BadData => p == 0 && argv == old(argv) && argnum == old(argnum) && fault
              case Arg(text, used) => p == used && argv == old(argv) + [text] && argnum == old(argnum) - 1 && !fault
    {
      p := 0;
      var ptr := cmdbuffer[parsed..];
      if ptr == "" || ptr[0] != '$' { return; }
      var ret, len, overflow := ParaseLength(ptr);
      if overflow {
        fault := true;
        return;
      }
      if ret == 0 { return; }
      if len > MAX_ARG {
        fault := true;
        return;
      }
      if |ptr| - ret < len + 2 { return; }
      if len < 0 {
        fault := true;
        return;
      }
      argv := argv + [ptr[ret..ret + len]];
      argnum := argnum - 1;
      p := ret + len + 2;
    }

    /** The request line; `ok` when the arguments may follow. */
    method ProcessHeader() returns (ok: bool)
      requires Valid() && argnum == 0 && !fault
      modifies this
      ensures Valid() && input == old(input) && done == old(done) && output == old(output)
      ensures |Abs().rest| <= |old(Abs()).rest|
      ensures match HeaderMove(old(Abs()))
              case Stuck => !ok && !fault && Abs() == old(Abs())
              case Fault => !ok && fault && Abs() == old(Abs())
              case Next(n, _) => ok && !fault && Abs() == n && argnum != 0
    {
      ok := false;
      var ptr := cmdbuffer[parsed..];
      if ptr == "" || ptr[0] != '*' { return; }
      var pos, num, overflow := ParaseLength(ptr);
      if overflow {
        fault := true;
        return;
      }
      if pos == 0 { return; }
      parsed := parsed + pos;
      argnum := num;
      argv, vector := [], true;
      ok := true;
    }

    /** The arguments, as far as they have arrived. */
    method ReadArgs()
      requires Valid() && argnum != 0 && !fault
      modifies this`parsed, this`argnum, this`argv, this`fault
      ensures parsed <= |cmdbuffer| && |cmdbuffer| - parsed <= |old(Abs()).rest|
      ensures argnum == 0 ==>
                !fault && parsed > old(parsed) && Resume(old(Abs())) == Resume(Machine(cmdbuffer[parsed..], 0, argv))
      ensures argnum != 0 ==> Valid() && Resume(old(Abs())) == Outcome(Abs(), [], fault)
    {
      ghost var goal := Resume(Abs());
      while argnum > 0
        invariant old(parsed) <= parsed <= |cmdbuffer| && !fault
        invariant argnum == 0 ==> parsed > old(parsed)
        invariant goal == Resume(Machine(cmdbuffer[parsed..], argnum, argv))
        decreases argnum
      {
        ghost var m := Machine(cmdbuffer[parsed..], argnum, argv);
        ArgStep(m);
        var p := ParaseData();
        if p == 0 { return; }
        DropTwice(cmdbuffer, parsed, p);
        parsed := parsed + p;
        assert Machine(cmdbuffer[parsed..], argnum, argv) ==
               Machine(m.rest[p..], m.argnum - 1, m.argv + [ParseData(m.rest).text]);
      }
      if argnum < 0 { NothingMore(Abs()); }
    }

    /** Either one whole command is handed over, or every byte that can be used has been used. */
    method ProcessCmd() returns (more: bool)
      requires Valid() && !fault
      modifies this
      ensures Valid() && input == old(input) && output == old(output)
      ensures |Abs().rest| <= |old(Abs()).rest|
      ensures more ==> !fault && |Abs().rest| < |old(Abs()).rest| &&
                       |done| == |old(done)| + 1 && done[..|old(done)|] == old(done) &&
                       Drain(old(Abs())) == Drain(Abs()).After([done[|old(done)|]])
      ensures !more ==> done == old(done) && Drain(old(Abs())) == Outcome(Abs(), [], fault)
    {
      more := false;
      if |cmdbuffer| == 0 { return; }
      if argnum == 0 {
        var ok := ProcessHeader();
        if !ok { return; }
        AfterTwice(Drain(Abs()), [], []);
      }
      ReadArgs();
      if argnum == 0 {
        DoCmd();
        more := true;
      }
    }

    /** The loop over `ProcessCmd`: the machine is run to its end. */
    method RunCommands()
      requires Valid() && !fault
      modifies this
      ensures Valid() && input == old(input) && output == old(output)
      ensures Outcome(Abs(), done, fault) == Drain(old(Abs())).After(old(done))
    {
      hide Drain;
      ghost var goal := Drain(Abs()).After(done);
      var more := |cmdbuffer| > 0;
      NothingToRun(Abs(), done);
      while more
        invariant Valid() && output == old(output) && input == old(input)
        invariant fault ==> !more
        invariant goal == if more then Drain(Abs()).After(done) else Outcome(Abs(), done, fault)
        decreases |Abs().rest|, more
      {
        ghost var before := done;
        more := ProcessCmd();
        if more {
          OneMoreDone(before, done);
          AfterTwice(Drain(Abs()), before, [done[|before|]]);
        } else {
          AfterNothing(Abs(), before, fault);
        }
      }
    }

    /** Takes what has arrived, if it is at least two bytes. */
    method TakeInput()
      requires Valid()
      modifies this`input, this`cmdbuffer
      ensures Valid()
      ensures |old(input)| < 2 ==> input == old(input) && Abs() == old(Abs())
      ensures |old(input)| >= 2 ==> input == "" && Abs() == old(Abs()).With(old(input))
    {
      while |input| >= 2
        invariant Valid()
        invariant || (input == old(input) && cmdbuffer == old(cmdbuffer))
                  || (|old(input)| >= 2 && input == "" && cmdbuffer == old(cmdbuffer) + old(input))
        decreases |input|
      {
        cmdbuffer := cmdbuffer + input;
        input := "";
      }
      if input != old(input) { RestExtends(old(cmdbuffer), old(input), parsed); }
    }

    /**
      `ReadCallback` after `chunk` has arrived: the parser has been run to its
      end over everything taken, and at most one byte is held back.
      */
    method ReadCallback(chunk: string)
      requires Valid() && !fault
      modifies this
      ensures Valid() && output == old(output)
      ensures input == Held(old(input), [chunk])
      ensures Outcome(Abs(), done, fault) ==
              Drain(old(Abs()).With(Batches(old(input), [chunk])[0])).After(old(done))
    {
      input := input + chunk;
      TakeInput();
      WithNothing(old(Abs()));
      RunCommands();
    }

    /**
      A whole connection: whatever is sent, in whatever pieces, the handlers
      see the commands of the bytes taken, and the buffers end as if those
      bytes had come in one piece.
      */
    method Serve(chunks: seq<string>)
      requires Valid() && Abs() == IDLE && input == "" && done == [] && !fault
      modifies this
      ensures Valid() && (fault || input == Held("", chunks))
      ensures Visible(Outcome(Abs(), done, fault)) == Visible(Drain(IDLE.With(Concat(Batches("", chunks)))))
    {
      var i := 0;
      assert chunks[0..] == chunks;
      AfterTwice(Feed(IDLE, Batches("", chunks)), [], []);
      while i < |chunks| && !fault
        invariant 0 <= i <= |chunks| && Valid()
        invariant fault || Held("", chunks) == Held(input, chunks[i..])
        invariant Feed(IDLE, Batches("", chunks)) ==
                  if fault then Outcome(Abs(), done, fault) else Feed(Abs(), Batches(input, chunks[i..])).After(done)
      {
        TurnOfSession(Abs(), input, chunks[i..], done);
        assert chunks[i..][1..] == chunks[i + 1..];
        ReadCallback(chunks[i]);
        i := i + 1;
      }
      if !fault { assert done + [] == done; }
      CuttingDoesNotMatter(IDLE, Batches("", chunks));
    }

    /** One string, as it is written to the client. */
    method SendBulkReply(text: string)
      modifies this`output
      ensures output == old(output) + Bulk(text)
    {
      output := output + ("$" + Digits(|text|) + "\r\n");
      output := output + text;
      output := output + "\r\n";
    }

    /** A list of strings: what is written is a request that parses back to the same list. */
    method SendMultiBulkReply(result: seq<string>)
      modifies this`output
      ensures output == old(output) + MultiBulk(result)
    {
      ghost var head := output + ("*" + Digits(|result|) + "\r\n");
      output := output + ("*" + Digits(|result|) + "\r\n");
      assert result[0..] == result;
      var i := 0;
      while i < |result|
        invariant 0 <= i <= |result|
        invariant output + Bulks(result[i..]) == head + Bulks(result)
      {
        BulkSent(output, result, i);
        SendBulkReply(result[i]);
        i := i + 1;
      }
      assert output + "" == output;
    }
  }
}
