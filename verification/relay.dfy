/** The client-to-server leg of a proxy session: every newline-delimited
    line the mining client sends is forwarded upstream, except that a line
    mentioning `mining.authorize` is decoded and re-encoded with the
    proxy's own user and password in place of the client's. */
module ClientRelay {
  import opened Strings

  datatype Option<+T> = None | Some(value: T)

  /** The decoded view of a line: the three fields of `MiningAuthorizeMessage`.
      An absent or null `params` decodes to the empty sequence. */
  datatype Msg = Msg(params: seq<string>, id: int, methodName: string)

  /** The replacement identity, fixed at startup. */
  datatype Credentials = Credentials(user: string, password: string)

  /** Stand-in for `encoding/json`: `unmarshal` is None when decoding fails;
      `marshal` writes the three fields and nothing else. */
  datatype JsonCodec = JsonCodec(unmarshal: string -> Option<Msg>, marshal: Msg -> string)

  /** The substring that makes a line a rewrite candidate. */
  const Trigger: string := "mining.authorize"

  const Newline: string := "\n"

  /** Overwrites `params[0]` and `params[1]` with the configured credentials. */
  function Substitute(m: Msg, creds: Credentials): (r: Msg)
    requires |m.params| >= 2
    ensures r.id == m.id && r.methodName == m.methodName
    ensures |r.params| == |m.params|
    ensures r.params[0] == creds.user && r.params[1] == creds.password
    ensures forall k :: 2 <= k < |r.params| ==> r.params[k] == m.params[k]
  {
    m.(params := m.params[0 := creds.user][1 := creds.password])
  }

  /** What the relay does with one line: `text` is exactly what it writes. */
  datatype LineResult =
    | Untouched(text: string)
    | Undecodable(text: string)
    | Rewritten(original: Msg, text: string)
    | IndexFault(original: Msg)

  /** The per-line decision of the relay loop. */
  function Transform(line: string, creds: Credentials, codec: JsonCodec): LineResult
  {
    if !Contains(line, Trigger) then
      Untouched(line + Newline)
    else
      match codec.unmarshal(line)
      case None => Undecodable(line + Newline)
      case Some(m) =>
        if |m.params| < 2 then IndexFault(m)
        else Rewritten(m, codec.marshal(Substitute(m, creds)) + Newline)
  }

  // ---------------------------------------------------------------------
  // Per-line properties

  /** A line without the trigger is written as it is plus one newline, and
      the codec is never consulted: any other codec gives the same result. */
  lemma PassthroughUndecoded(line: string, creds: Credentials, codec: JsonCodec)
    requires !Contains(line, Trigger)
    ensures Transform(line, creds, codec) == Untouched(line + Newline)
    ensures forall other: JsonCodec :: Transform(line, creds, other) == Transform(line, creds, codec)
  {
  }

  /** A trigger line that fails to decode is written verbatim plus one newline. */
  lemma UndecodableVerbatim(line: string, creds: Credentials, codec: JsonCodec)
    requires Contains(line, Trigger) && codec.unmarshal(line).None?
    ensures Transform(line, creds, codec) == Undecodable(line + Newline)
  {
  }

  /** A decoded trigger line with at least two params is written as the
      encoding of the message with the first two params replaced wholesale
      by the credentials; `id`, `method` and the later params are kept. */
  lemma AuthorizeRewritten(line: string, creds: Credentials, codec: JsonCodec, m: Msg)
    requires Contains(line, Trigger) && codec.unmarshal(line) == Some(m)
    requires |m.params| >= 2
    ensures Transform(line, creds, codec)
         == Rewritten(m, codec.marshal(Msg([creds.user, creds.password] + m.params[2..], m.id, m.methodName)) + Newline)
  {
    assert Substitute(m, creds).params == [creds.user, creds.password] + m.params[2..];
  }

  /** A decoded trigger line with fewer than two params (including none)
      faults at the index assignment and produces no output. */
  lemma ShortParamsFault(line: string, creds: Credentials, codec: JsonCodec, m: Msg)
    requires Contains(line, Trigger) && codec.unmarshal(line) == Some(m)
    requires |m.params| < 2
    ensures Transform(line, creds, codec) == IndexFault(m)
  {
  }

  /** The trigger is a substring test on the raw text, not a check of the
      `method` field: a line that carries `mining.authorize` anywhere (inside
      a param, say) and decodes with two params is rewritten whatever its
      method is. */
  lemma TriggerIsSubstring(pre: string, post: string, creds: Credentials, codec: JsonCodec, m: Msg)
    requires codec.unmarshal(pre + Trigger + post) == Some(m)
    requires |m.params| >= 2
    ensures Transform(pre + Trigger + post, creds, codec)
         == Rewritten(m, codec.marshal(Substitute(m, creds)) + Newline)
  {
    ContainsEmbedded(pre, Trigger, post);
  }

  /** The old identity is discarded whole (no `.suffix` survives): two
      messages that differ only in their first two params are rewritten to
      the same message. */
  lemma IdentityDiscarded(m1: Msg, m2: Msg, creds: Credentials)
    requires |m1.params| >= 2 && |m1.params| == |m2.params|
    requires m1.params[2..] == m2.params[2..]
    requires m1.id == m2.id && m1.methodName == m2.methodName
    ensures Substitute(m1, creds) == Substitute(m2, creds)
  {
  }

  /** Only the decoded fields reach the output: two trigger lines that decode
      to the same message (differing, say, in other keys, key order or
      spacing) are handled identically. */
  lemma OnlyDecodedFieldsSurvive(line1: string, line2: string, creds: Credentials, codec: JsonCodec)
    requires Contains(line1, Trigger) && Contains(line2, Trigger)
    requires codec.unmarshal(line1).Some? && codec.unmarshal(line1) == codec.unmarshal(line2)
    ensures Transform(line1, creds, codec) == Transform(line2, creds, codec)
  {
  }

  // ---------------------------------------------------------------------
  // The forwarding loop as a specification

  /** `Running` after the last line means the scanner reached end of input. */
  datatype Status = Running | Panicked(at: nat)

  /** The log lines the loop itself writes, keyed by input line number. */
  datatype LogEvent =
    | UnmarshalFailed(line: nat)
    | OriginalParams(line: nat, params: seq<string>)
    | WriteFailed(line: nat)

  /** What the loop has done so far: the writes that reached the server,
      the log, and whether a fault ended it. */
  datatype Trace = Trace(sent: seq<string>, log: seq<LogEvent>, status: Status)

  /** Write `text` as line `i`; `accepts(i)` says whether the destination took
      it. A failed write delivers nothing and is logged only if `report`. */
  function Write(t: Trace, i: nat, text: string, accepts: nat -> bool, report: bool): Trace
  {
    if accepts(i) then t.(sent := t.sent + [text])
    else if report then t.(log := t.log + [WriteFailed(i)])
    else t
  }

  /** One iteration of the loop on line `i`. */
  function Step(t: Trace, i: nat, line: string, creds: Credentials, codec: JsonCodec, accepts: nat -> bool): Trace
  {
    match Transform(line, creds, codec)
    case Untouched(text) => Write(t, i, text, accepts, true)
    case Undecodable(text) => Write(t.(log := t.log + [UnmarshalFailed(i)]), i, text, accepts, true)
    case Rewritten(m, text) => Write(t.(log := t.log + [OriginalParams(i, m.params)]), i, text, accepts, false)
    case IndexFault(m) => Trace(t.sent, t.log + [OriginalParams(i, m.params)], Panicked(i))
  }

  /** The trace after the loop has consumed `lines` (or panicked on one of them). */
  function Run(lines: seq<string>, creds: Credentials, codec: JsonCodec, accepts: nat -> bool): (t: Trace)
    ensures |t.sent| <= |lines|
    ensures t.status.Panicked? ==>
              t.status.at < |lines| && Transform(lines[t.status.at], creds, codec).IndexFault?
    decreases |lines|
  {
    if lines == [] then Trace([], [], Running)
    else
      var prev := Run(lines[..|lines| - 1], creds, codec, accepts);
      if prev.status.Panicked? then prev
      else Step(prev, |lines| - 1, lines[|lines| - 1], creds, codec, accepts)
  }

  /** The number of lines the loop handled before stopping. */
  function Consumed(t: Trace, n: nat): nat {
    if t.status.Panicked? then t.status.at else n
  }

  // ---------------------------------------------------------------------
  // Properties of the loop

  /** The loop stops early exactly at the first faulting line; it reaches the
      end of input exactly when no line faults. */
  lemma {:induction false} StopsAtFirstFault(lines: seq<string>, creds: Credentials, codec: JsonCodec, accepts: nat -> bool)
    ensures Run(lines, creds, codec, accepts).status == Running <==>
              forall i :: 0 <= i < |lines| ==> !Transform(lines[i], creds, codec).IndexFault?
    ensures Run(lines, creds, codec, accepts).status.Panicked? ==>
              forall i :: 0 <= i < Run(lines, creds, codec, accepts).status.at ==>
                !Transform(lines[i], creds, codec).IndexFault?
  {
    if lines != [] {
      var init := lines[..|lines| - 1];
      StopsAtFirstFault(init, creds, codec, accepts);
      assert forall i :: 0 <= i < |init| ==> init[i] == lines[i];
    }
  }

  /** Write failures never stop the loop: how it ends does not depend on
      which writes the destination accepted. */
  lemma {:induction false} WritesNeverStopTheLoop(lines: seq<string>, creds: Credentials, codec: JsonCodec, a1: nat -> bool, a2: nat -> bool)
    ensures Run(lines, creds, codec, a1).status == Run(lines, creds, codec, a2).status
  {
    if lines != [] {
      WritesNeverStopTheLoop(lines[..|lines| - 1], creds, codec, a1, a2);
    }
  }

  /** After a fault, further input changes nothing: the session is over. */
  lemma {:induction false} FaultEndsTheLoop(lines: seq<string>, more: seq<string>, creds: Credentials, codec: JsonCodec, accepts: nat -> bool)
    requires Run(lines, creds, codec, accepts).status.Panicked?
    ensures Run(lines + more, creds, codec, accepts) == Run(lines, creds, codec, accepts)
  {
    if more == [] {
      assert lines + more == lines;
    } else {
      var init := more[..|more| - 1];
      var all := lines + more;
      FaultEndsTheLoop(lines, init, creds, codec, accepts);
      assert all[..|all| - 1] == lines + init;
      assert Run(all, creds, codec, accepts) == Run(lines + init, creds, codec, accepts);
    }
  }

  /** The texts of the first `n` lines whose writes the destination
      accepted, in input order: what the server should receive when the
      loop has handled those lines. */
  function Delivered(lines: seq<string>, n: nat, creds: Credentials, codec: JsonCodec, accepts: nat -> bool): seq<string>
    requires n <= |lines|
    requires forall i :: 0 <= i < n ==> !Transform(lines[i], creds, codec).IndexFault?
  {
    if n == 0 then []
    else
      Delivered(lines, n - 1, creds, codec, accepts) +
      (if accepts(n - 1) then [Transform(lines[n - 1], creds, codec).text] else [])
  }

  /** `Delivered` looks only at the lines it covers. */
  lemma {:induction false} DeliveredPrefix(lines: seq<string>, m: nat, n: nat, creds: Credentials, codec: JsonCodec, accepts: nat -> bool)
    requires n <= m <= |lines|
    requires forall i :: 0 <= i < n ==> !Transform(lines[i], creds, codec).IndexFault?
    ensures Delivered(lines[..m], n, creds, codec, accepts) == Delivered(lines, n, creds, codec, accepts)
  {
    if n > 0 {
      DeliveredPrefix(lines, m, n - 1, creds, codec, accepts);
      assert lines[..m][n - 1] == lines[n - 1];
    }
  }

  /** Whatever writes fail, what reaches the server is exactly the
      transformed text of every handled line whose write succeeded, in input
      order: a failed write loses its own line and no other. */
  lemma {:induction false} DeliversAcceptedInOrder(lines: seq<string>, creds: Credentials, codec: JsonCodec, accepts: nat -> bool)
    ensures var t := Run(lines, creds, codec, accepts);
            var n := Consumed(t, |lines|);
            n <= |lines| &&
            (forall i :: 0 <= i < n ==> !Transform(lines[i], creds, codec).IndexFault?) &&
            t.sent == Delivered(lines, n, creds, codec, accepts)
  {
    if lines != [] {
      var k := |lines| - 1;
      var init := lines[..k];
      var prev := Run(init, creds, codec, accepts);
      DeliversAcceptedInOrder(init, creds, codec, accepts);
      assert forall i :: 0 <= i < k ==> init[i] == lines[i];
      var n := Consumed(prev, k);
      DeliveredPrefix(lines, k, n, creds, codec, accepts);
      if prev.status.Running? && !Transform(lines[k], creds, codec).IndexFault? {
        assert Delivered(lines, k + 1, creds, codec, accepts)
            == Delivered(lines, k, creds, codec, accepts) +
               (if accepts(k) then [Transform(lines[k], creds, codec).text] else []);
      }
    }
  }

  /** When every write is accepted, `Delivered` holds one text per line, in order. */
  lemma {:induction false} DeliveredAllAccepted(lines: seq<string>, n: nat, creds: Credentials, codec: JsonCodec, accepts: nat -> bool)
    requires forall k: nat :: accepts(k)
    requires n <= |lines|
    requires forall i :: 0 <= i < n ==> !Transform(lines[i], creds, codec).IndexFault?
    ensures |Delivered(lines, n, creds, codec, accepts)| == n
    ensures forall i :: 0 <= i < n ==>
              Delivered(lines, n, creds, codec, accepts)[i] == Transform(lines[i], creds, codec).text
  {
    if n > 0 {
      DeliveredAllAccepted(lines, n - 1, creds, codec, accepts);
      assert accepts(n - 1);
    }
  }

  /** Order is preserved: when every write succeeds, what reaches the server
      is one transformed line per handled input line, in input order, and
      nothing for the faulting line or the lines after it. */
  lemma {:induction false} ForwardsInOrder(lines: seq<string>, creds: Credentials, codec: JsonCodec, accepts: nat -> bool)
    requires forall k: nat :: accepts(k)
    ensures var t := Run(lines, creds, codec, accepts);
            |t.sent| == Consumed(t, |lines|) &&
            forall i :: 0 <= i < |t.sent| ==>
              !Transform(lines[i], creds, codec).IndexFault? && t.sent[i] == Transform(lines[i], creds, codec).text
  {
    DeliversAcceptedInOrder(lines, creds, codec, accepts);
    var t := Run(lines, creds, codec, accepts);
    DeliveredAllAccepted(lines, Consumed(t, |lines|), creds, codec, accepts);
  }

  /** Every log event names a line the loop has already handled. */
  lemma {:induction false} LogNamesHandledLines(lines: seq<string>, creds: Credentials, codec: JsonCodec, accepts: nat -> bool)
    ensures forall e :: e in Run(lines, creds, codec, accepts).log ==> e.line < |lines|
  {
    if lines != [] {
      LogNamesHandledLines(lines[..|lines| - 1], creds, codec, accepts);
    }
  }

  /** One step logs a write failure only for its own line, and only when
      that write failed on a branch that reports it. */
  lemma StepReportsOwnWrite(t: Trace, i: nat, line: string, creds: Credentials, codec: JsonCodec, accepts: nat -> bool, j: nat)
    requires !Transform(line, creds, codec).IndexFault?
    ensures WriteFailed(j) in Step(t, i, line, creds, codec, accepts).log <==>
              WriteFailed(j) in t.log || (j == i && !accepts(i) && !Transform(line, creds, codec).Rewritten?)
  {
    match Transform(line, creds, codec)
    case Untouched(text) =>
    case Undecodable(text) =>
      assert WriteFailed(j) != UnmarshalFailed(i);
    case Rewritten(m, text) =>
      assert WriteFailed(j) != OriginalParams(i, m.params);
  }

  /** A failed write is reported on the passthrough and decode-failure
      branches and silently dropped on the rewrite branch. */
  lemma {:induction false} WriteFailureReporting(lines: seq<string>, creds: Credentials, codec: JsonCodec, accepts: nat -> bool, i: nat)
    requires i < Consumed(Run(lines, creds, codec, accepts), |lines|)
    ensures WriteFailed(i) in Run(lines, creds, codec, accepts).log <==>
              !accepts(i) && !Transform(lines[i], creds, codec).Rewritten?
  {
    var n := |lines| - 1;
    var init := lines[..n];
    var prev := Run(init, creds, codec, accepts);
    if prev.status.Panicked? {
      WriteFailureReporting(init, creds, codec, accepts, i);
      assert init[i] == lines[i];
    } else {
      var t := Run(lines, creds, codec, accepts);
      assert t == Step(prev, n, lines[n], creds, codec, accepts);
      if Transform(lines[n], creds, codec).IndexFault? {
        // the last line faulted: it adds no write-failure event
        WriteFailureReporting(init, creds, codec, accepts, i);
        assert init[i] == lines[i];
      } else if i < n {
        StepReportsOwnWrite(prev, n, lines[n], creds, codec, accepts, i);
        WriteFailureReporting(init, creds, codec, accepts, i);
        assert init[i] == lines[i];
      } else {
        StepReportsOwnWrite(prev, n, lines[n], creds, codec, accepts, i);
        LogNamesHandledLines(init, creds, codec, accepts);
        assert WriteFailed(i) !in prev.log;
      }
    }
  }

  // ---------------------------------------------------------------------
  // The loop itself

  /** `processAndForwardClientData`: scan the client's lines in order,
      rewrite authorize lines, write each result to the server, and stop at
      end of input or at an index fault. `accepts(i)` is whether the write
      for line `i` succeeds. */
  method ProcessAndForwardClientData(lines: seq<string>, creds: Credentials, codec: JsonCodec, accepts: nat -> bool)
    returns (sent: seq<string>, log: seq<LogEvent>, status: Status)
    ensures Trace(sent, log, status) == Run(lines, creds, codec, accepts)
  {
    sent, log, status := [], [], Running;
    var i := 0;
    while i < |lines|
      invariant 0 <= i <= |lines|
      invariant status == Running
      invariant Trace(sent, log, status) == Run(lines[..i], creds, codec, accepts)
    {
      assert lines[..i + 1][..i] == lines[..i];
      var line := lines[i];
      if Contains(line, Trigger) {
        var decoded := codec.unmarshal(line);
        if decoded.None? {
          log := log + [UnmarshalFailed(i)];
          if accepts(i) {
            sent := sent + [line + Newline];
          } else {
            log := log + [WriteFailed(i)];
          }
          i := i + 1;
          continue;
        }
        var msg := decoded.value;
        log := log + [OriginalParams(i, msg.params)];
        if |msg.params| < 2 {
          // msg.Params[0] or msg.Params[1] is out of range: the goroutine panics
          status := Panicked(i);
          FaultEndsTheLoop(lines[..i + 1], lines[i + 1..], creds, codec, accepts);
          assert lines[..i + 1] + lines[i + 1..] == lines;
          return;
        }
        msg := msg.(params := msg.params[0 := creds.user]);
        msg := msg.(params := msg.params[1 := creds.password]);
        var modified := codec.marshal(msg);
        if accepts(i) {
          sent := sent + [modified + Newline];
        }
      } else {
        if accepts(i) {
          sent := sent + [line + Newline];
        } else {
          log := log + [WriteFailed(i)];
        }
      }
      i := i + 1;
    }
    assert lines[..i] == lines;
  }
}
