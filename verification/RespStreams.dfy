/**
  Which commands the request parser delivers of an arbitrary byte stream:
  exactly those of the longest sequence of whole requests it starts with.
  */
module RespStreams {
  import opened Decimal
  import opened Search
  import opened Text
  import opened Resp

  // ---- Requests by their grammar --------------------------------------------------------------

  /** `line` is the text between the type byte and the line feed, `end` the two bytes that are passed over. */
  datatype ArgText = ArgText(line: string, text: string, end: string)

  datatype Request = Request(line: string, args: seq<ArgText>)

  /** The number a length line holds, as `strtol` reads it. */
  function CountIn(line: string): int {
    ToInt32(ScanInt(CountText(line)))
  }

  predicate LineOk(line: string) {
    '\n' !in line && FitsBuffer(line)
  }

  predicate ArgOk(a: ArgText) {
    LineOk(a.line) && 0 < |a.text| <= MAX_ARG && CountIn(a.line) == |a.text| && |a.end| == 2
  }

  predicate ArgsOk(args: seq<ArgText>) {
    forall i | 0 <= i < |args| :: ArgOk(args[i])
  }

  predicate RequestOk(r: Request) {
    LineOk(r.line) && CountIn(r.line) == |r.args| > 0 && ArgsOk(r.args)
  }

  predicate AllOk(rs: seq<Request>) {
    forall i | 0 <= i < |rs| :: RequestOk(rs[i])
  }

  function LineText(c: char, line: string, rest: string): string {
    [c] + line + "\n" + rest
  }

  function ArgBytes(a: ArgText): string {
    LineText('$', a.line, a.text + a.end)
  }

  function ArgsBytes(args: seq<ArgText>): string {
    if args == [] then "" else ArgBytes(args[0]) + ArgsBytes(args[1..])
  }

  function RequestBytes(r: Request): string {
    LineText('*', r.line, ArgsBytes(r.args))
  }

  function StreamBytes(rs: seq<Request>): string {
    if rs == [] then "" else RequestBytes(rs[0]) + StreamBytes(rs[1..])
  }

  function Texts(args: seq<ArgText>): seq<string> {
    if args == [] then [] else [args[0].text] + Texts(args[1..])
  }

  function Commands(rs: seq<Request>): seq<seq<string>> {
    if rs == [] then [] else [Texts(rs[0].args)] + Commands(rs[1..])
  }

  /** `s` does not start with a whole request. */
  ghost predicate NoRequest(s: string) {
    forall r, more | RequestOk(r) :: s != RequestBytes(r) + more
  }

  // ---- Requests are delivered --------------------------------------------------------------------

  lemma LineIsFound(c: char, line: string, rest: string)
    requires c != '\n' && '\n' !in line
    ensures IndexOf(LineText(c, line, rest), "\n") == |line| + 1
    ensures LineText(c, line, rest)[1..|line| + 1] == line && LineText(c, line, rest)[|line| + 2..] == rest
  {
    var s := LineText(c, line, rest);
    assert s[|line| + 1..|line| + 2] == "\n";
    assert At(s, "\n", |line| + 1);
    forall j | 0 <= j < |line| + 1 ensures !At(s, "\n", j) {
      AtChar(s, "\n", j, 0);
      assert s[j] == if j == 0 then c else line[j - 1];
    }
    FirstUnique(s, "\n", |line| + 1);
  }

  lemma LineIsParsed(c: char, line: string, rest: string)
    requires c != '\n' && LineOk(line) && CountIn(line) != 0
    ensures ParseLength(LineText(c, line, rest)) == Count(CountIn(line), |line| + 2)
    ensures LineText(c, line, rest)[|line| + 2..] == rest
  {
    hide LineText, IndexOf, CountText, ScanInt, ToInt32, FitsBuffer;
    LineIsFound(c, line, rest);
    assert LineText(c, line, rest)[1..|line| + 1] == line;
  }

  lemma ArgIsParsed(a: ArgText, rest: string)
    requires ArgOk(a)
    ensures ParseData(ArgBytes(a) + rest) == Arg(a.text, |ArgBytes(a)|) && (ArgBytes(a) + rest)[|ArgBytes(a)|..] == rest
  {
    hide ParseLength, CountIn, LineOk;
    var behind := a.text + a.end + rest;
    LineIsParsed('$', a.line, behind);
    ArgInPieces(a, rest);
    var used := |a.line| + 2;
    var s := ArgBytes(a) + rest;
    assert s[used..] == behind;
    assert s[used..used + |a.text|] == behind[..|a.text|] == a.text;
  }

  lemma ArgInPieces(a: ArgText, rest: string)
    ensures ArgBytes(a) + rest == LineText('$', a.line, a.text + a.end + rest)
    ensures |ArgBytes(a)| == |a.line| + 2 + |a.text| + |a.end| && (ArgBytes(a) + rest)[0] == '$'
  {
  }

  lemma ArgIsTaken(a: ArgText, rest: string, argnum: nat, argv: seq<string>)
    requires ArgOk(a) && argnum > 0
    ensures argnum == 1 ==>
              Drain(Machine(ArgBytes(a) + rest, 1, argv)) == Drain(Machine(rest, 0, [])).After([argv + [a.text]])
    ensures argnum > 1 ==>
              Drain(Machine(ArgBytes(a) + rest, argnum, argv)) == Drain(Machine(rest, argnum - 1, argv + [a.text]))
  {
    hide ParseData, ArgBytes;
    ArgIsParsed(a, rest);
    if argnum > 1 { AfterTwice(Drain(Machine(rest, argnum - 1, argv + [a.text])), [], []); }
  }

  lemma FirstArg(args: seq<ArgText>, rest: string)
    requires args != []
    ensures ArgsBytes(args) + rest == ArgBytes(args[0]) + (ArgsBytes(args[1..]) + rest)
  {
  }

  lemma {:induction false} ArgsAreTaken(args: seq<ArgText>, argv: seq<string>, rest: string)
    requires args != [] && ArgsOk(args)
    ensures Drain(Machine(ArgsBytes(args) + rest, |args|, argv)) == Drain(Machine(rest, 0, [])).After([argv + Texts(args)])
    decreases |args|
  {
    hide Drain, ArgBytes;
    var a, others := args[0], args[1..];
    FirstArg(args, rest);
    ArgIsTaken(a, ArgsBytes(others) + rest, |args|, argv);
    if others == [] {
      assert ArgsBytes(others) + rest == rest;
      assert argv + [a.text] == argv + Texts(args);
    } else {
      ArgsAreTaken(others, argv + [a.text], rest);
      assert (argv + [a.text]) + Texts(others) == argv + Texts(args);
    }
  }

  lemma HeaderIsTaken(line: string, rest: string)
    requires LineOk(line) && CountIn(line) != 0
    ensures Drain(Machine(LineText('*', line, rest), 0, [])) == Drain(Machine(rest, CountIn(line), []))
  {
    hide ParseLength, CountIn, LineOk, Drain;
    LineIsParsed('*', line, rest);
    assert LineText('*', line, rest)[0] == '*';
    var m, n := Machine(LineText('*', line, rest), 0, []), Machine(rest, CountIn(line), []);
    assert Advance(m) == Next(n, []);
    OneMove(m, n);
  }

  lemma OneMove(m: Machine, n: Machine)
    requires Advance(m) == Next(n, [])
    ensures Drain(m) == Drain(n)
  {
    hide Advance;
    AfterTwice(Drain(n), [], []);
  }

  lemma RequestIsTaken(r: Request, rest: string)
    requires RequestOk(r)
    ensures Drain(Machine(RequestBytes(r) + rest, 0, [])) == Drain(Machine(rest, 0, [])).After([Texts(r.args)])
  {
    hide Drain, ArgsBytes, CountIn, LineOk, ArgOk;
    assert RequestBytes(r) + rest == LineText('*', r.line, ArgsBytes(r.args) + rest);
    HeaderIsTaken(r.line, ArgsBytes(r.args) + rest);
    ArgsAreTaken(r.args, [], rest);
    assert [] + Texts(r.args) == Texts(r.args);
  }

  lemma {:induction false} StreamIsTaken(rs: seq<Request>, rest: string)
    requires AllOk(rs)
    ensures Drain(Machine(StreamBytes(rs) + rest, 0, [])) == Drain(Machine(rest, 0, [])).After(Commands(rs))
    decreases |rs|
  {
    hide Drain, RequestOk, RequestBytes;
    if rs == [] {
      assert StreamBytes(rs) + rest == rest;
      AfterTwice(Drain(Machine(rest, 0, [])), [], []);
    } else {
      var more := StreamBytes(rs[1..]) + rest;
      assert StreamBytes(rs) + rest == RequestBytes(rs[0]) + more;
      RequestIsTaken(rs[0], more);
      StreamIsTaken(rs[1..], rest);
      AfterTwice(Drain(Machine(rest, 0, [])), [Texts(rs[0].args)], Commands(rs[1..]));
    }
  }

  // ---- Nothing else is delivered ------------------------------------------------------------------

  lemma LineFeedAt(s: string, j: nat)
    requires j < |s|
    ensures At(s, "\n", j) <==> s[j] == '\n'
  {
    assert s[j..j + 1] == [s[j]];
  }

  lemma LineBack(s: string) returns (line: string)
    requires ParseLength(s).Count?
    ensures s != "" && LineOk(line) && s == LineText(s[0], line, s[ParseLength(s).used..]) && ParseLength(s).n == CountIn(line)
    ensures ParseLength(s).used == |line| + 2
  {
    hide CountText, ScanInt, ToInt32;
    var lf := IndexOf(s, "\n");
    line := s[1..lf];
    forall j | 0 <= j < |line| ensures line[j] != '\n' {
      assert !At(s, "\n", j + 1);
      LineFeedAt(s, j + 1);
      assert line[j] == s[j + 1];
    }
    assert s[lf..lf + 1] == "\n";
    assert s == [s[0]] + s[1..lf] + s[lf..lf + 1] + s[lf + 1..];
  }

  lemma ArgBack(s: string) returns (a: ArgText)
    requires ParseData(s).Arg?
    ensures ArgOk(a) && a.text == ParseData(s).text && s == ArgBytes(a) + s[ParseData(s).used..]
  {
    hide ParseLength, CountIn, LineOk;
    var line := LineBack(s);
    var used, n := ParseLength(s).used, ParseLength(s).n;
    var rest := s[used..];
    a := ArgText(line, rest[..n], rest[n..n + 2]);
    assert s[used..used + n] == rest[..n];
    assert rest == rest[..n] + rest[n..n + 2] + rest[n + 2..];
    assert s[used + n + 2..] == rest[n + 2..];
    ArgInPieces(a, rest[n + 2..]);
  }

  /** If a command is finished, the bytes start with all its arguments. */
  lemma {:induction false} ArgsBack(s: string, argnum: nat, argv: seq<string>) returns (args: seq<ArgText>, rest: string)
    requires argnum > 0 && Drain(Machine(s, argnum, argv)).done != []
    ensures ArgsOk(args) && |args| == argnum && s == ArgsBytes(args) + rest
    decreases argnum
  {
    hide ParseData, ArgBytes, ArgOk;
    var m := Machine(s, argnum, argv);
    assert Advance(m).Next?;
    var a := ArgBack(s);
    var t := s[ParseData(s).used..];
    if argnum == 1 {
      args, rest := [a], t;
      assert args[1..] == [];
      FirstArg(args, rest);
      assert ArgsBytes(args[1..]) + rest == rest;
    } else {
      var others;
      others, rest := ArgsBack(t, argnum - 1, argv + [a.text]);
      args := [a] + others;
      assert args[1..] == others;
      FirstArg(args, rest);
    }
  }

  /** If a command is finished, the bytes start with a whole request. */
  lemma RequestBack(s: string) returns (r: Request, rest: string)
    requires Drain(Machine(s, 0, [])).done != []
    ensures RequestOk(r) && s == RequestBytes(r) + rest
  {
    hide ParseLength, CountIn, LineOk, ArgsOk, ArgsBytes;
    var m := Machine(s, 0, []);
    assert Advance(m).Next?;
    var line := LineBack(s);
    var t, n := s[ParseLength(s).used..], ParseLength(s).n;
    assert Advance(m) == Next(Machine(t, n, []), []);
    OneMove(m, Machine(t, n, []));
    NegativeStalls(Machine(t, n, []));
    var args;
    args, rest := ArgsBack(t, n, []);
    r := Request(line, args);
    assert s == LineText('*', line, ArgsBytes(args) + rest) == RequestBytes(r) + rest;
  }

  lemma NegativeStalls(m: Machine)
    ensures m.argnum < 0 ==> Drain(m).done == []
  {
  }

  lemma NoRequestIff(s: string)
    ensures NoRequest(s) <==> Drain(Machine(s, 0, [])).done == []
  {
    hide Drain, RequestOk, RequestBytes;
    if Drain(Machine(s, 0, [])).done != [] {
      var r, more := RequestBack(s);
      assert !NoRequest(s);
    } else {
      forall r, more | RequestOk(r) ensures s != RequestBytes(r) + more {
        RequestIsTaken(r, more);
      }
    }
  }

  lemma RequestIsLong(r: Request)
    ensures |RequestBytes(r)| >= 2
  {
  }

  /** Every stream is some whole requests and a rest that does not start with another. */
  lemma {:induction false} EveryStream(s: string) returns (rs: seq<Request>, left: string)
    ensures AllOk(rs) && s == StreamBytes(rs) + left && NoRequest(left)
    decreases |s|
  {
    hide Drain, RequestOk, RequestBytes, NoRequest;
    NoRequestIff(s);
    if Drain(Machine(s, 0, [])).done == [] {
      rs, left := [], s;
      assert s == StreamBytes([]) + s;
    } else {
      var r, rest := RequestBack(s);
      RequestIsLong(r);
      var more;
      more, left := EveryStream(rest);
      rs := [r] + more;
      assert rs[1..] == more;
      assert s == RequestBytes(r) + (StreamBytes(more) + left) == RequestBytes(r) + StreamBytes(more) + left;
    }
  }

  /**
    For every byte stream, cut in any way: the commands delivered are those of
    the whole requests it starts with, all of them and no others.
    */
  lemma DeliveredExactly(chunks: seq<string>) returns (rs: seq<Request>, left: string)
    ensures AllOk(rs) && Concat(chunks) == StreamBytes(rs) + left && NoRequest(left)
    ensures Feed(IDLE, chunks).done == Commands(rs)
  {
    hide Drain, Feed, RequestOk, NoRequest, StreamBytes;
    rs, left := EveryStream(Concat(chunks));
    StreamIsTaken(rs, left);
    NoRequestIff(left);
    CuttingDoesNotMatter(IDLE, chunks);
    assert IDLE.With(Concat(chunks)) == Machine(Concat(chunks), 0, []);
    assert Commands(rs) + [] == Commands(rs);
  }
}
