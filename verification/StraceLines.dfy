/**
 cmd/convert-element-trace/main.go, parseExecveLine, on the lines that strace itself prints: a
 line that ends in a zero result is read, whatever its environment argument, and any other is refused.
 */
module StraceLines {
  import opened Options
  import opened Sequences
  import opened Text
  import opened TraceLine
  import opened TraceReading

  /** What strace prints between the arguments and the result is `env`: an address and a comment, or a list. */
  function StraceLine(head: string, path: string, argv: seq<string>, env: string, result: string): string {
    head + CALL + (Quote(path) + (", " + ("[" + (ArgvText(argv) + ("]" + (", " + env + ") = " + result))))))
  }

  /** No line is read that does not say success, or that another one continues. */
  lemma OnlySuccessIsRead(line: string)
    ensures ExecveArgv(line).Some? ==>
      && Contains(line, "execve(") && |line| >= 12 && Contains(line[|line| - 12..], "= 0")
      && !Contains(line, "<unfinished") && !Contains(line, "resumed>")
  {
  }

  lemma LineIsLong(head: string, path: string, argv: seq<string>, env: string, result: string)
    ensures |StraceLine(head, path, argv, env, result)| >= 12
  {
    hide QuoteBody, ArgvText;
  }

  /** Main result on strace's lines: the arguments come back, unescaped, exactly when the line says success. */
  lemma StraceLineRead(head: string, path: string, argv: seq<string>, env: string, result: string)
    requires !Contains(head, CALL)
    ensures var line := StraceLine(head, path, argv, env, result);
      ExecveArgv(line) == if SaysSuccess(line) && !Marked(line) then Some(Unescaped(argv)) else None
  {
    var post := ", " + env + ") = " + result;
    var tail := Quote(path) + (", " + ("[" + (ArgvText(argv) + ("]" + post))));
    LineIsLong(head, path, argv, env, result);
    CallFound(head, tail);
    Cut(head + CALL, tail);
    BracketOfArgv(argv, post);
    AfterCallOf(path, ArgvText(argv), post);
    ArgvOfText(argv);
    hide ArgvText, AfterCall, Quote, ArgvOf, Unescaped;
  }

  lemma ZeroResult(front: string)
    requires |front| >= 7
    ensures SaysSuccess(front + (") = " + "0"))
  {
    var line := front + (") = " + "0");
    var last := line[|line| - 12..];
    assert last[9..12] == "= 0";
    assert OccursAt(last, "= 0", 9);
  }

  lemma {:induction false} FrontOf(head: string, path: string, argv: seq<string>, env: string, result: string)
    returns (front: string)
    ensures StraceLine(head, path, argv, env, result) == front + (") = " + result)
  {
    hide Quote, ArgvText;
    front := head + CALL + (Quote(path) + (", " + ("[" + (ArgvText(argv) + ("]" + (", " + env))))));
  }

  /** A call that succeeded is read, environment and all. */
  lemma {:induction false} SuccessIsRead(head: string, path: string, argv: seq<string>, env: string)
    requires !Contains(head, CALL) && !Marked(StraceLine(head, path, argv, env, "0"))
    ensures ExecveArgv(StraceLine(head, path, argv, env, "0")) == Some(Unescaped(argv))
  {
    hide StraceLine, ExecveArgv;
    StraceLineRead(head, path, argv, env, "0");
    LineIsLong(head, path, argv, env, "0");
    var front := FrontOf(head, path, argv, env, "0");
    ZeroResult(front);
  }

  /** A text that holds none has no success in its last bytes, if a failed result precedes it. */
  lemma NoZeroAfter(err: string, n: nat)
    requires !Contains(err, "= 0") && n <= |") = -1 " + err|
    ensures !Contains((") = -1 " + err)[n..], "= 0")
  {
    var text := ") = -1 " + err;
    forall p | 0 <= p <= |text[n..]|
      ensures !OccursAt(text[n..], "= 0", p)
    {
      if OccursAt(text[n..], "= 0", p) {
        var q := n + p;
        assert text[q..q + 3] == text[n..][p..p + 3];
        assert text[q] == "= 0"[0] && text[q + 2] == "= 0"[2];
        if q >= 7 {
          Cut(") = -1 ", err);
          assert text[7..] == err && err[q - 7..q - 4] == text[q..q + 3];
          assert OccursAt(err, "= 0", q - 7);
        }
      }
    }
  }

  lemma LastBytes(front: string, back: string)
    requires |back| >= 12
    ensures (front + back)[|front + back| - 12..] == back[|back| - 12..]
  {
  }

  /** A call that failed is refused: `-1` and any error text that does not itself spell a zero result. */
  lemma {:induction false} FailureIsRefused(head: string, path: string, argv: seq<string>, env: string, err: string)
    requires !Contains(head, CALL) && |err| >= 5 && !Contains(err, "= 0")
    ensures ExecveArgv(StraceLine(head, path, argv, env, "-1 " + err)) == None
  {
    hide StraceLine, ExecveArgv, Contains, Marked;
    var result := "-1 " + err;
    StraceLineRead(head, path, argv, env, result);
    var front := FrontOf(head, path, argv, env, result);
    assert ") = " + result == ") = -1 " + err;
    NoZeroAfter(err, |err| - 5);
    LastBytes(front, ") = -1 " + err);
  }
}
