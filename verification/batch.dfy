/** `execute` (packages/database-sqlite/src/index.ts, lines 28-39): raw
    SQL handed to SQLite as it stands, one text or a list of texts. */
module Batch {

  /** The argument of `execute`: one text, or a list run in order. */
  datatype Sql = Single(text: string) | Many(texts: seq<string>)

  /** What SQLite does with one text: runs it, or throws. */
  datatype ExecReply = Done | Threw(message: string)

  /** The result of `execute`, with the log of every text handed to SQLite
      so far: it returns normally, or the first error escapes and the
      remaining texts are never started. */
  datatype Outcome = Completed(log: seq<string>) | Raised(log: seq<string>, message: string)

  /** The texts of the argument, in order. */
  function Texts(sql: Sql): seq<string>
  {
    match sql
    case Single(t) => [t]
    case Many(ts) => ts
  }

  /** The texts that reach SQLite when none fails: all but the empty ones, in order. */
  function Submitted(texts: seq<string>): (sent: seq<string>)
    ensures |sent| <= |texts|
    ensures "" !in sent
  {
    if |texts| == 0 then []
    else
      var last := texts[|texts| - 1];
      var init := texts[..|texts| - 1];
      assert texts == init + [last];
      Submitted(init) + (if last == "" then [] else [last])
  }

  /** Exactly the non-empty texts are sent. */
  lemma {:induction false} SubmittedMembers(texts: seq<string>)
    ensures forall t :: t in Submitted(texts) <==> t in texts && t != ""
  {
    if |texts| > 0 {
      var init := texts[..|texts| - 1];
      SubmittedMembers(init);
      assert texts == init + [texts[|texts| - 1]];
    }
  }

  /** Extending the texts by one extends what is sent by that text, unless it is empty. */
  lemma SubmittedStep(texts: seq<string>, i: nat)
    requires i < |texts|
    ensures Submitted(texts[..i + 1]) == Submitted(texts[..i]) + (if texts[i] == "" then [] else [texts[i]])
  {
    var p := texts[..i + 1];
    assert p[|p| - 1] == texts[i];
    assert p[..|p| - 1] == texts[..i];
  }

  /** The reply SQLite gives `texts[j]` once the earlier texts have run. */
  function ReplyAt(log: seq<string>, texts: seq<string>, engine: (seq<string>, string) -> ExecReply, j: nat): ExecReply
    requires j < |texts|
  {
    engine(log + Submitted(texts[..j]), texts[j])
  }

  /** `texts[j]` is skipped or runs without error. */
  predicate PassesAt(log: seq<string>, texts: seq<string>, engine: (seq<string>, string) -> ExecReply, j: nat)
    requires j < |texts|
  {
    texts[j] == "" || ReplyAt(log, texts, engine, j).Done?
  }

  /** Running the texts with the log `log` fails first at index `k`:
      every earlier text was skipped or ran, and `texts[k]` threw. */
  predicate FailsFirstAt(log: seq<string>, texts: seq<string>, engine: (seq<string>, string) -> ExecReply, k: nat)
  {
    && k < |texts|
    && texts[k] != ""
    && ReplyAt(log, texts, engine, k).Threw?
    && forall j: nat :: j < k ==> PassesAt(log, texts, engine, j)
  }

  /** A text that throws after every earlier one passed is the first failure,
      and the run as a whole does not pass. */
  lemma FirstFailure(log: seq<string>, texts: seq<string>, engine: (seq<string>, string) -> ExecReply, i: nat)
    requires i < |texts| && texts[i] != ""
    requires ReplyAt(log, texts, engine, i).Threw?
    requires forall j: nat :: j < i ==> PassesAt(log, texts, engine, j)
    ensures FailsFirstAt(log, texts, engine, i)
    ensures !forall k: nat :: k < |texts| ==> PassesAt(log, texts, engine, k)
  {
    assert !PassesAt(log, texts, engine, i);
  }

  /** `execute(sql)` on a connection that has run `log`. `engine` answers
      for SQLite given what it has run before. An empty text is skipped
      without touching SQLite; the texts of a list run one by one, each
      finishing before the next starts. */
  method Execute(log: seq<string>, sql: Sql, engine: (seq<string>, string) -> ExecReply) returns (out: Outcome)
    ensures sql == Single("") ==> out == Completed(log)
    ensures out.Completed? <==> forall k: nat :: k < |Texts(sql)| ==> PassesAt(log, Texts(sql), engine, k)
    ensures out.Completed? ==> out.log == log + Submitted(Texts(sql))
    ensures out.Raised? ==>
      exists k: nat :: (&& FailsFirstAt(log, Texts(sql), engine, k)
                        && out.log == log + Submitted(Texts(sql)[..k + 1])
                        && out.message == ReplyAt(log, Texts(sql), engine, k).message)
  {
    out := RunAll(log, Texts(sql), engine);
    if sql == Single("") {
      assert Submitted([""]) == Submitted([]) + [];
    }
  }

  /** The texts run in order against a connection that has run `log`,
      stopping at the first one that throws. */
  method RunAll(log: seq<string>, texts: seq<string>, engine: (seq<string>, string) -> ExecReply) returns (out: Outcome)
    ensures out.Completed? <==> forall k: nat :: k < |texts| ==> PassesAt(log, texts, engine, k)
    ensures out.Completed? ==> out.log == log + Submitted(texts)
    ensures out.Raised? ==>
      exists k: nat :: (&& FailsFirstAt(log, texts, engine, k)
                        && out.log == log + Submitted(texts[..k + 1])
                        && out.message == ReplyAt(log, texts, engine, k).message)
  {
    var current := log;
    var i := 0;
    while i < |texts|
      invariant 0 <= i <= |texts|
      invariant current == log + Submitted(texts[..i])
      invariant forall j: nat :: j < i ==> PassesAt(log, texts, engine, j)
    {
      var t := texts[i];
      SubmittedStep(texts, i);
      if t != "" {
        var reply := engine(current, t);
        if reply.Threw? {
          FirstFailure(log, texts, engine, i);
          out := Raised(current + [t], reply.message);
          assert FailsFirstAt(log, texts, engine, i) && out.log == log + Submitted(texts[..i + 1]);
          return;
        }
        current := current + [t];
      }
      i := i + 1;
    }
    assert texts[..i] == texts;
    return Completed(current);
  }
}
