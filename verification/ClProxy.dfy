// The Engine API multiplexer: every request goes to the primary, and what is
// not about building blocks goes to the secondary as well.
module ClProxy {
  import opened Text

  // A raw JSON parameter; NilParam is the nil message, printed as null.
  datatype Param = Raw(text: string) | NilParam

  datatype Message = Message(version: string, id: string, method_: string, params: seq<Param>, result: string)

  // An HTTP request; the body is None if it cannot be read.
  datatype Request = Request(verb: string, body: Option<string>)

  // What became of a request sent to the primary.
  datatype Answer = NoAnswer | Unreadable | Answered(status: int, data: string)

  datatype Reply = Reply(status: int, data: string)

  const GET_PAYLOAD := "engine_getPayload"
  const FORKCHOICE := "engine_forkchoiceUpdated"

  predicate HasPrefix(s: string, p: string) { p <= s }

  predicate IsForkchoice(m: Message) { HasPrefix(m.method_, FORKCHOICE) }

  predicate IsGetPayload(m: Message) { HasPrefix(m.method_, GET_PAYLOAD) }

  // The JSON library; value gives the same result for two raw texts exactly when
  // they denote the same JSON value, however it is spaced and escaped.
  datatype Codec = Codec(
    parse: string -> Option<Message>,
    marshal: Message -> Option<string>,
    value: string -> string)

  predicate WellFormed(c: Codec, req: Request) {
    req.verb == "POST" && req.body.Some? && c.parse(req.body.value).Some?
  }

  // m with its second parameter set to the nil message.
  function Nulled(m: Message): Message
    requires |m.params| > 1
  {
    m.(params := m.params[1 := NilParam])
  }

  // What the secondary is sent for a request the primary answered; None is nothing.
  function Forwarded(c: Codec, req: Request): Option<string>
    requires WellFormed(c, req)
  {
    var m := c.parse(req.body.value).value;
    if IsGetPayload(m) then None
    else if !IsForkchoice(m) || |m.params| == 1 then req.body
    else if |m.params| == 0 then None
    else c.marshal(Nulled(m))
  }

  class ClProxy {
    const codec: Codec
    const secondary: string
    // the bodies sent so far
    var toPrimary: seq<string>
    var toSecondary: seq<string>

    constructor (codec: Codec, secondary: string)
      ensures this.codec == codec && this.secondary == secondary && toPrimary == [] && toSecondary == []
    {
      this.codec, this.secondary, toPrimary, toSecondary := codec, secondary, [], [];
    }

    // Returns the reply to the client; panicked says that the handler failed
    // after writing it, in which case the client may not get it.
    method HandleRequest(req: Request, answer: Answer) returns (reply: Reply, panicked: bool)
      modifies this
      ensures !WellFormed(codec, req) ==>
                toPrimary == old(toPrimary) && reply.status == (if req.verb != "POST" then 405 else 400)
      ensures WellFormed(codec, req) ==> toPrimary == old(toPrimary) + [req.body.value]
      ensures WellFormed(codec, req) && !panicked ==>
                reply == match answer
                         case Answered(status, data) => Reply(status, data)
                         case _ => Reply(500, "Internal server error")
      ensures toSecondary == old(toSecondary) +
                if Reaches(codec, req, answer) && secondary != "" then [Forwarded(codec, req).value] else []
      ensures panicked <==> Panics(codec, secondary, req, answer)
    {
      panicked := false;
      if req.verb != "POST" {
        return Reply(405, "Method not allowed"), false;
      }
      if req.body.None? {
        return Reply(400, "Bad request"), false;
      }
      var data := req.body.value;
      var parsed := codec.parse(data);
      if parsed.None? {
        return Reply(400, "Bad request"), false;
      }
      var m := parsed.value;
      PrefixesDiffer(m.method_);
      toPrimary := toPrimary + [data];
      if !answer.Answered? {
        return Reply(500, "Internal server error"), false;
      }
      reply := Reply(answer.status, answer.data);
      if secondary == "" {
        return;
      }
      if HasPrefix(m.method_, GET_PAYLOAD) {
        return;
      }
      if HasPrefix(m.method_, FORKCHOICE) {
        if |m.params| != 1 {
          if |m.params| < 2 {
            // index out of range
            panicked := true;
            return;
          }
          m := m.(params := m.params[1 := NilParam]);
          var marshalled := codec.marshal(m);
          if marshalled.None? {
            return;
          }
          data := marshalled.value;
        }
      }
      toSecondary := toSecondary + [data];
    }

    // A stream of requests, one after the other.
    method Serve(requests: seq<Request>, answers: seq<Answer>) returns (replies: seq<Reply>, panics: seq<bool>)
      requires |requests| == |answers|
      modifies this
      ensures toPrimary == old(toPrimary) + PrimaryView(codec, requests)
      ensures toSecondary == old(toSecondary) +
                if secondary == "" then [] else SecondaryView(codec, requests, answers)
      ensures |replies| == |panics| == |requests|
      ensures forall i :: 0 <= i < |requests| ==>
                (panics[i] <==> Panics(codec, secondary, requests[i], answers[i])) &&
                (WellFormed(codec, requests[i]) && answers[i].Answered? && !panics[i] ==>
                   replies[i] == Reply(answers[i].status, answers[i].data))
    {
      hide Panics, WellFormed, Reaches, Forwarded;
      replies, panics := [], [];
      for i := 0 to |requests|
        invariant |replies| == |panics| == i
        invariant toPrimary == old(toPrimary) + PrimaryView(codec, requests[..i])
        invariant toSecondary == old(toSecondary) +
                    if secondary == "" then [] else SecondaryView(codec, requests[..i], answers[..i])
        invariant forall k :: 0 <= k < i ==>
                    (panics[k] <==> Panics(codec, secondary, requests[k], answers[k])) &&
                    (WellFormed(codec, requests[k]) && answers[k].Answered? && !panics[k] ==>
                       replies[k] == Reply(answers[k].status, answers[k].data))
      {
        assert requests[..i + 1][..i] == requests[..i] && answers[..i + 1][..i] == answers[..i];
        var reply, panicked := HandleRequest(requests[i], answers[i]);
        replies, panics := replies + [reply], panics + [panicked];
      }
      assert requests[..|requests|] == requests && answers[..|requests|] == answers;
    }
  }

  // The request is well formed, was answered, and has something to forward.
  predicate Reaches(c: Codec, req: Request, answer: Answer) {
    WellFormed(c, req) && answer.Answered? && Forwarded(c, req).Some?
  }

  // The handler fails on a forkchoice call without parameters, if there is a secondary.
  predicate Panics(c: Codec, secondary: string, req: Request, answer: Answer) {
    WellFormed(c, req) && answer.Answered? && secondary != "" &&
    var m := c.parse(req.body.value).value;
    IsForkchoice(m) && m.params == []
  }

  // There is such a request: any text read as a forkchoice call with no parameters.
  lemma EmptyForkchoicePanics(text: string)
    ensures var call := Message("2.0", "1", FORKCHOICE + "V3", [], "");
            var c := Codec(t => if t == text then Some(call) else None, _ => None, t => t);
            Panics(c, "http://secondary", Request("POST", Some(text)), Answered(200, ""))
  {
    var call := Message("2.0", "1", FORKCHOICE + "V3", [], "");
    assert IsForkchoice(call);
  }

  lemma PrefixesDiffer(s: string)
    ensures !(HasPrefix(s, GET_PAYLOAD) && HasPrefix(s, FORKCHOICE))
  {
    if HasPrefix(s, GET_PAYLOAD) {
      assert s[7] == GET_PAYLOAD[7] == 'g';
    }
    assert FORKCHOICE[7] == 'f';
  }

  // ----- over a stream of requests -----

  // The bodies of the well-formed requests.
  function PrimaryView(c: Codec, requests: seq<Request>): seq<string> {
    if requests == [] then []
    else
      var last := requests[|requests| - 1];
      PrimaryView(c, requests[..|requests| - 1]) + if WellFormed(c, last) then [last.body.value] else []
  }

  // What is forwarded for the well-formed requests that the primary answered.
  function SecondaryView(c: Codec, requests: seq<Request>, answers: seq<Answer>): seq<string>
    requires |requests| == |answers|
  {
    if requests == [] then []
    else
      var n := |requests| - 1;
      SecondaryView(c, requests[..n], answers[..n]) +
      if Reaches(c, requests[n], answers[n]) then [Forwarded(c, requests[n]).value] else []
  }

  // The requests that reach the secondary, by number.
  function Sources(c: Codec, requests: seq<Request>, answers: seq<Answer>): seq<nat>
    requires |requests| == |answers|
  {
    if requests == [] then []
    else
      var n := |requests| - 1;
      Sources(c, requests[..n], answers[..n]) + if Reaches(c, requests[n], answers[n]) then [n] else []
  }

  // What the secondary receives is, one for one and in order, what is due of the
  // requests that are due.
  lemma {:induction false} SecondaryInOrder(c: Codec, requests: seq<Request>, answers: seq<Answer>)
    requires |requests| == |answers|
    ensures var from, view := Sources(c, requests, answers), SecondaryView(c, requests, answers);
            |from| == |view| &&
            (forall k :: 0 <= k < |from| ==>
               from[k] < |requests| && Reaches(c, requests[from[k]], answers[from[k]]) &&
               Some(view[k]) == Forwarded(c, requests[from[k]])) &&
            (forall k, l :: 0 <= k < l < |from| ==> from[k] < from[l]) &&
            (forall i :: 0 <= i < |requests| ==> (i in from <==> Reaches(c, requests[i], answers[i])))
  {
    if requests != [] {
      hide Reaches, Forwarded;
      var n := |requests| - 1;
      SecondaryInOrder(c, requests[..n], answers[..n]);
      assert forall i :: 0 <= i < n ==> requests[..n][i] == requests[i] && answers[..n][i] == answers[i];
    }
  }

  // The secondary is due a request exactly if the primary answered it, it does
  // not fetch a payload, and a forkchoice call has a parameter and can be printed.
  predicate Due(c: Codec, req: Request, answer: Answer) {
    WellFormed(c, req) && answer.Answered? &&
    var m := c.parse(req.body.value).value;
    !IsGetPayload(m) && (IsForkchoice(m) ==> |m.params| == 1 || (|m.params| > 1 && c.marshal(Nulled(m)).Some?))
  }

  // Exactly the requests that are due are forwarded.
  lemma NothingElseWithheld(c: Codec, requests: seq<Request>, answers: seq<Answer>, i: nat)
    requires |requests| == |answers| && i < |requests|
    ensures i in Sources(c, requests, answers) <==> Due(c, requests[i], answers[i])
  {
    SecondaryInOrder(c, requests, answers);
  }

  // ----- the secondary is never asked to build -----

  predicate IsNull(p: Param) { p == NilParam || p == Raw("null") }

  // The same JSON value.
  predicate SameParam(c: Codec, p: Param, q: Param) {
    (IsNull(p) && IsNull(q)) || (p.Raw? && q.Raw? && c.value(p.text) == c.value(q.text))
  }

  predicate SameMessage(c: Codec, m: Message, n: Message) {
    m.version == n.version && m.method_ == n.method_ && c.value(m.id) == c.value(n.id) &&
    c.value(m.result) == c.value(n.result) && |m.params| == |n.params| &&
    forall i :: 0 <= i < |m.params| ==> SameParam(c, m.params[i], n.params[i])
  }

  // A parsed message whose second parameter was removed is printed so that it
  // parses to the same values.
  ghost predicate RoundTrips(c: Codec) {
    forall text :: c.parse(text).Some? && |c.parse(text).value.params| > 1 ==>
      var m := Nulled(c.parse(text).value);
      c.marshal(m).Some? ==>
        c.parse(c.marshal(m).value).Some? && SameMessage(c, m, c.parse(c.marshal(m).value).value)
  }

  // A message that starts or fetches a block.
  predicate BuildsBlock(m: Message) {
    IsGetPayload(m) || (IsForkchoice(m) && |m.params| > 1 && !IsNull(m.params[1]))
  }

  // n is m, value for value, but for the payload attributes of a forkchoice call,
  // which are gone.
  predicate Stripped(c: Codec, m: Message, n: Message) {
    n.version == m.version && n.method_ == m.method_ && c.value(n.id) == c.value(m.id) &&
    c.value(n.result) == c.value(m.result) && |n.params| == |m.params| &&
    forall i :: 0 <= i < |m.params| ==>
      if i == 1 && IsForkchoice(m) then IsNull(n.params[i]) else SameParam(c, m.params[i], n.params[i])
  }

  lemma ForwardedStripped(c: Codec, req: Request)
    requires RoundTrips(c) && WellFormed(c, req) && Forwarded(c, req).Some?
    ensures var m := c.parse(req.body.value).value;
            var sent := c.parse(Forwarded(c, req).value);
            sent.Some? && Stripped(c, m, sent.value) && !BuildsBlock(sent.value) && !IsGetPayload(m) &&
            (!IsForkchoice(m) || |m.params| == 1 ==> Forwarded(c, req) == req.body)
  {
    var m := c.parse(req.body.value).value;
    PrefixesDiffer(m.method_);
    if IsForkchoice(m) && |m.params| > 1 {
      var sent := c.parse(c.marshal(Nulled(m)).value).value;
      forall i | 0 <= i < |m.params|
        ensures if i == 1 then IsNull(sent.params[i]) else SameParam(c, m.params[i], sent.params[i])
      {
        assert SameParam(c, Nulled(m).params[i], sent.params[i]);
      }
    }
  }

  // Over any stream of requests nothing the secondary receives builds a block,
  // and the k-th thing it receives is the k-th request that is due, with nothing
  // but the payload attributes removed.
  lemma SecondaryNeverBuilds(c: Codec, requests: seq<Request>, answers: seq<Answer>, k: nat)
    requires RoundTrips(c) && |requests| == |answers| && k < |SecondaryView(c, requests, answers)|
    ensures k < |Sources(c, requests, answers)|
    ensures var i := Sources(c, requests, answers)[k];
            var sent := c.parse(SecondaryView(c, requests, answers)[k]);
            i < |requests| && WellFormed(c, requests[i]) && sent.Some? &&
            Stripped(c, c.parse(requests[i].body.value).value, sent.value) && !BuildsBlock(sent.value)
  {
    hide RoundTrips, Forwarded, BuildsBlock, Stripped, WellFormed;
    SecondaryInOrder(c, requests, answers);
    ForwardedStripped(c, requests[Sources(c, requests, answers)[k]]);
  }

  // ----- an example: the text of a call before and after its attributes are removed -----

  const HEAD := "{\"headBlockHash\":\"0xaa\"}"
  const SPACED_HEAD := "{ \"headBlockHash\": \"0xaa\" }"

  const CALL := Message("2.0", "1", FORKCHOICE + "V3", [Raw(SPACED_HEAD), Raw("{\"timestamp\":\"0x1\"}")], "")
  const STRIPPED_CALL := Message("2.0", "1", FORKCHOICE + "V3", [Raw(HEAD), Raw("null")], "")

  // A codec that compacts raw parameters when it prints, as the JSON library
  // does, meets the assumption; a call through it arrives with its head and
  // without its attributes.
  lemma CompactingCodec(text: string, printed: string)
    requires text != printed
    ensures var c := Codec(t => if t == text then Some(CALL) else if t == printed then Some(STRIPPED_CALL) else None,
                           (m: Message) => if |m.params| > 1 && m.params[1] == NilParam then Some(printed) else None,
                           t => if t == SPACED_HEAD then HEAD else t);
            RoundTrips(c) && WellFormed(c, Request("POST", Some(text))) &&
            Forwarded(c, Request("POST", Some(text))) == Some(printed)
  {
    assert IsForkchoice(CALL);
    PrefixesDiffer(CALL.method_);
  }
}
