/** Waiting for the daemon's ready message in output that arrives in arbitrary chunks. */
module AgentOutput {
  import opened Wire
  import opened Lines

  const AGENT_READY_MSG := "NANDROID_READY_FOR_CONNECTION"

  /** `substr(pos, count)`: at most `count` characters. */
  function Substr(s: string, pos: nat, count: nat): string
    requires pos <= |s|
  {
    if pos + count <= |s| then s[pos..pos + count] else s[pos..]
  }

  predicate AnyReady(lines: seq<string>) {
    exists l :: l in lines && StartsWith(l, AGENT_READY_MSG)
  }

  lemma AnyReadyJoins(a: seq<string>, b: seq<string>)
    ensures AnyReady(a + b) <==> AnyReady(a) || AnyReady(b)
  {
    if AnyReady(a) {
      var l :| l in a && StartsWith(l, AGENT_READY_MSG);
      assert l in a + b;
    }
    if AnyReady(b) {
      var l :| l in b && StartsWith(l, AGENT_READY_MSG);
      assert l in a + b;
    }
  }

  lemma NoneReady()
    ensures !AnyReady([])
  {
  }

  lemma AnyReadyOne(l: string)
    ensures AnyReady([l]) <==> StartsWith(l, AGENT_READY_MSG)
  {
    assert l in [l];
  }

  /** A prefix without newlines is found in a text exactly if it is found before a newline. */
  lemma PrefixBeforeNewline(long: string, k: nat, msg: string)
    requires k < |long| && long[k] == NEWLINE && NEWLINE !in msg
    ensures StartsWith(long, msg) <==> StartsWith(long[..k], msg)
  {
    assert k < |msg| <= |long| ==> long[..|msg|][k] == NEWLINE;
    assert |msg| <= k ==> long[..k][..|msg|] == long[..|msg|];
  }

  /** The extracted line is given a count where an end was meant, so it may run past its newline;
      because the message contains no newline, the test still answers for the line alone. */
  lemma OverrunHarmless(s: string, from: nat, next: nat)
    requires from <= next < |s| && s[next] == NEWLINE
    ensures StartsWith(Substr(s, from, next), AGENT_READY_MSG) <==> StartsWith(s[from..next], AGENT_READY_MSG)
  {
    assert NEWLINE !in AGENT_READY_MSG;
    hide StartsWith;
    var long := Substr(s, from, next);
    if from > 0 {
      assert long[next - from] == NEWLINE && long[..next - from] == s[from..next];
      PrefixBeforeNewline(long, next - from, AGENT_READY_MSG);
    }
  }

  class Nandroid {
    var agentOutputBuffer: string
    var agentReady: bool

    constructor ()
      ensures agentOutputBuffer == "" && !agentReady
    {
      agentOutputBuffer, agentReady := "", false;
    }

    /** Appends the chunk, looks at every newly completed line, keeps the unfinished rest. */
    method HandleDaemonOutput(chunk: string)
      modifies this
      ensures agentOutputBuffer == Rest(old(agentOutputBuffer) + chunk)
      ensures agentReady == (old(agentReady) || AnyReady(Complete(old(agentOutputBuffer) + chunk)))
    {
      hide *;
      agentOutputBuffer := agentOutputBuffer + chunk;
      ghost var all := agentOutputBuffer;
      ghost var seen: seq<string> := [];
      var lastNewline := -1;
      assert all[0..] == all && [] + Complete(all) == Complete(all);
      NoneReady();
      var nextNewline := Find(agentOutputBuffer, NEWLINE, 0);
      while nextNewline != -1
        invariant agentOutputBuffer == all && -1 <= lastNewline < |all|
        invariant nextNewline == Find(all, NEWLINE, lastNewline + 1)
        invariant Complete(all) == seen + Complete(all[lastNewline + 1..])
        invariant Rest(all) == Rest(all[lastNewline + 1..])
        invariant agentReady == (old(agentReady) || AnyReady(seen))
        decreases |all| - lastNewline
      {
        NextLine(all, lastNewline + 1);
        ghost var exact := all[lastNewline + 1..nextNewline];
        var line := Substr(agentOutputBuffer, lastNewline + 1, nextNewline);
        OverrunHarmless(all, lastNewline + 1, nextNewline);
        if StartsWith(line, AGENT_READY_MSG) {
          agentReady := true;
        }
        AnyReadyJoins(seen, [exact]);
        AnyReadyOne(exact);
        ConcatAssociates(seen, [exact], Complete(all[nextNewline + 1..]));
        seen := seen + [exact];
        lastNewline := nextNewline;
        nextNewline := Find(agentOutputBuffer, NEWLINE, lastNewline + 1);
      }
      NextLine(all, lastNewline + 1);
      assert seen + [] == seen;
      agentOutputBuffer := agentOutputBuffer[lastNewline + 1..];
    }
  }

  // ----- every way of cutting the output -----

  /** The object's fields after it has been handed these chunks. */
  function Fed(chunks: seq<string>): (string, bool) {
    if chunks == [] then ("", false)
    else
      var (buffer, ready) := Fed(chunks[..|chunks| - 1]);
      var all := buffer + chunks[|chunks| - 1];
      (Rest(all), ready || AnyReady(Complete(all)))
  }

  /** However the output is cut, readiness is signalled if and only if some complete line of the
      whole output begins with the message, and the text after the last newline is kept. */
  lemma {:induction false} ChunkingInvisible(chunks: seq<string>)
    ensures Fed(chunks) == (Rest(Concat(chunks)), AnyReady(Complete(Concat(chunks))))
  {
    if chunks == [] {
      assert Find("", NEWLINE, 0) == -1;
    } else {
      var front, last := chunks[..|chunks| - 1], chunks[|chunks| - 1];
      ChunkingInvisible(front);
      Appending(Concat(front), last);
      AnyReadyJoins(Complete(Concat(front)), Complete(Rest(Concat(front)) + last));
    }
  }
}
