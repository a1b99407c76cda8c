/** From the passive listeners to the EdgeX channel: non-blocking producers (the HTTP, MQTT and SNMP trap listeners),
    one bounded channel, and the single consumer `processReceiveData` of internal/driver/drive.go. Every step is atomic
    and any number of producers may interleave with the consumer in any way. Each HTTP request runs on a goroutine of
    its own, in two steps: the channel send, and later the write of its answer. */
module EventPipeline {
  import opened Basics

  datatype Event = Event(source: string, name: string, data: bytes)

  /** `decodeReceiveEvent`: an error, nothing to send, or a value for the EdgeX channel. The decoders consult the device
      registry, so the same event need not decode the same way twice. */
  datatype Decoded<V> = Failed | Nothing | Decoded(value: V)

  /** The sources the dispatch knows; any other is an error. */
  predicate Dispatched(source: string) {
    source == "mqtt" || source == "snmp"
  }

  /** Where the consumer's loop stands. */
  datatype Consumer<V> =
    | Idle                            // at the select
    | Holding(event: Event)           // received, not decoded yet
    | Sending(event: Event, value: V) // blocked on the EdgeX channel
    | Stopped                         // saw the cancelled context

  datatype Handled<V> = Handled(event: Event, outcome: Decoded<V>)

  /** An event the channel took, and the HTTP request whose goroutine sent it, if any. */
  datatype Accepted = Accepted(event: Event, push: Option<nat>)

  /** An HTTP request past its select: the status it is going to answer, or has answered. */
  datatype Push = Push(status: nat, payload: bytes, answered: bool)

  /** An answer on the wire, with the request it belongs to and what that request had pushed. */
  datatype Answer = Answer(push: nat, status: nat, payload: bytes)

  /** The channel, the consumer and the HTTP requests, with the history of what happened: events taken by the channel,
      events the consumer is done with, values handed to EdgeX, and HTTP answers in the order of their writes. */
  datatype State<V> = State(capacity: nat, queue: seq<Event>, consumer: Consumer<V>, cancelled: bool,
                            accepted: seq<Accepted>, handled: seq<Handled<V>>, forwarded: seq<V>,
                            pushes: seq<Push>, answers: seq<Answer>)

  function Initial<V>(capacity: nat): State<V> {
    State(capacity, [], Idle, false, [], [], [], [], [])
  }

  /** What an HTTP request body turns out to be when read. */
  datatype Body = Unreadable | Read(payload: bytes)

  datatype Step<V> =
    | HttpOffer(post: bool, body: Body)    // a new request, up to and including its select
    | HttpAnswer(push: nat)                // a request writes its status
    | MqttPublish(topic: string, payload: bytes)
    | SnmpTrap(marshalled: Option<bytes>)  // None: the trap could not be marshalled
    | Cancel
    | Receive
    | SeeDone
    | Decode(outcome: Decoded<V>)
    | Send

  /** Which steps are possible; the producers never wait. */
  predicate Enabled<V(!new)>(s: State<V>, step: Step<V>) {
    match step
    case HttpAnswer(push) => push < |s.pushes| && !s.pushes[push].answered
    case Receive => s.consumer.Idle? && s.queue != []
    case SeeDone => s.consumer.Idle? && s.cancelled
    case Decode(outcome) => s.consumer.Holding? && (!Dispatched(s.consumer.event.source) ==> outcome.Failed?)
    case Send => s.consumer.Sending?
    case _ => true
  }

  predicate HasRoom<V>(s: State<V>) {
    |s.queue| < s.capacity
  }

  /** `select { case ch <- event: default: }`. */
  function Offer<V>(s: State<V>, event: Event, push: Option<nat>): State<V> {
    if HasRoom(s) then s.(queue := s.queue + [event], accepted := s.accepted + [Accepted(event, push)]) else s
  }

  function HttpEvent(payload: bytes): Event {
    Event("http", "http_alarm_event", payload)
  }

  /** A request that will answer this status. */
  function Join<V>(s: State<V>, status: nat, payload: bytes): State<V> {
    s.(pushes := s.pushes + [Push(status, payload, false)])
  }

  /** `handlePush` up to its answer. */
  function HandlePush<V>(s: State<V>, post: bool, body: Body): State<V> {
    if !post then Join(s, 405, [])
    else if body.Unreadable? then Join(s, 500, [])
    else if body.payload == [] then Join(s, 400, [])
    else if HasRoom(s) then Join(Offer(s, HttpEvent(body.payload), Some(|s.pushes|)), 200, body.payload)
    else Join(s, 503, body.payload)
  }

  /** `writeJSON` at the end of `handlePush`. */
  function WriteAnswer<V>(s: State<V>, push: nat): State<V>
    requires push < |s.pushes|
  {
    var p := s.pushes[push];
    s.(pushes := s.pushes[push := p.(answered := true)], answers := s.answers + [Answer(push, p.status, p.payload)])
  }

  /** The consumer is done with an event and goes back to its select. */
  function Settle<V>(s: State<V>, event: Event, outcome: Decoded<V>): State<V> {
    s.(consumer := Idle, handled := s.handled + [Handled(event, outcome)],
       forwarded := if outcome.Decoded? then s.forwarded + [outcome.value] else s.forwarded)
  }

  function Do<V(!new)>(s: State<V>, step: Step<V>): State<V>
    requires Enabled(s, step)
  {
    match step
    case HttpOffer(post, body) => HandlePush(s, post, body)
    case HttpAnswer(push) => WriteAnswer(s, push)
    case MqttPublish(topic, payload) => Offer(s, Event("mqtt", topic, payload), None)
    case SnmpTrap(payload) => if payload.None? then s else Offer(s, Event("snmp", "snmp_trap", payload.value), None)
    case Cancel => s.(cancelled := true)
    case Receive => s.(queue := s.queue[1..], consumer := Holding(s.queue[0]))
    case SeeDone => s.(consumer := Stopped)
    case Decode(outcome) =>
      if outcome.Decoded? then s.(consumer := Sending(s.consumer.event, outcome.value))
      else Settle(s, s.consumer.event, outcome)
    case Send => Settle(s, s.consumer.event, Decoded(s.consumer.value))
  }

  function Run<V(!new)>(capacity: nat, steps: seq<Step<V>>): Option<State<V>> {
    if steps == [] then Some(Initial(capacity))
    else
      match Run(capacity, steps[..|steps| - 1])
      case Some(s) => if Enabled(s, steps[|steps| - 1]) then Some(Do(s, steps[|steps| - 1])) else None
      case None => None
  }

  // ----- step by step -----

  /** An MQTT publish never waits. With room in the channel its event is the last in the queue and the last accepted;
      with a full channel it leaves no trace. */
  lemma Publish<V(!new)>(s: State<V>, topic: string, payload: bytes)
    ensures var step: Step<V> := MqttPublish(topic, payload);
            var event := Event("mqtt", topic, payload);
            Enabled(s, step) &&
            Do(s, step) == if |s.queue| < s.capacity
                           then s.(queue := s.queue + [event], accepted := s.accepted + [Accepted(event, None)])
                           else s
  {
  }

  /** So does a trap, once it is marshalled; one that cannot be marshalled leaves no trace. */
  lemma Trap<V(!new)>(s: State<V>, marshalled: Option<bytes>)
    ensures var step: Step<V> := SnmpTrap(marshalled);
            Enabled(s, step) &&
            Do(s, step) == if marshalled.Some? && |s.queue| < s.capacity
                           then var event := Event("snmp", "snmp_trap", marshalled.value);
                                s.(queue := s.queue + [event], accepted := s.accepted + [Accepted(event, None)])
                           else s
  {
  }

  /** An HTTP request never waits either. Only a POST whose body can be read and is not empty gets to the channel; it is
      going to answer 200 exactly if there is room, and then its event is the last in the queue and the last accepted.
      Any other status leaves the channel as it was. */
  lemma HttpRequest<V(!new)>(s: State<V>, post: bool, body: Body)
    ensures var step: Step<V> := HttpOffer(post, body);
            Enabled(s, step) &&
            var s' := Do(s, step);
            var offers := post && body.Read? && body.payload != [];
            && s' == s.(queue := s'.queue, accepted := s'.accepted, pushes := s'.pushes)
            && |s'.pushes| == |s.pushes| + 1 && s.pushes <= s'.pushes
            && var push := s'.pushes[|s.pushes|];
               && !push.answered
               && push.status == (if !post then 405 else if body.Unreadable? then 500
                                  else if body.payload == [] then 400
                                  else if |s.queue| < s.capacity then 200 else 503)
               && (offers ==> push.payload == body.payload)
               && if offers && |s.queue| < s.capacity
                  then var event := Event("http", "http_alarm_event", body.payload);
                       && s'.queue == s.queue + [event]
                       && s'.accepted == s.accepted + [Accepted(event, Some(|s.pushes|))]
                  else s'.queue == s.queue && s'.accepted == s.accepted
  {
  }

  /** A request that has its status can write it, once. */
  lemma HttpAnswers<V(!new)>(s: State<V>, id: nat)
    requires id < |s.pushes| && !s.pushes[id].answered
    ensures var step: Step<V> := HttpAnswer(id);
            Enabled(s, step) &&
            var s' := Do(s, step);
            && s'.answers == s.answers + [Answer(id, s.pushes[id].status, s.pushes[id].payload)]
            && s' == s.(answers := s'.answers, pushes := s.pushes[id := s.pushes[id].(answered := true)])
            && !Enabled(s', step)
  {
  }

  /** The consumer takes events from the front. One from MQTT or SNMP may decode to any value, or to none, or fail; a
      value is forwarded as it is. One from any other source can only fail. */
  lemma Consumes<V(!new)>(s: State<V>, value: V)
    requires s.consumer.Idle? && s.queue != []
    ensures var receive: Step<V>, decode: Step<V>, send: Step<V> := Receive, Decode(Decoded(value)), Send;
            var event := s.queue[0];
            Enabled(s, receive) &&
            var held := Do(s, receive);
            && held == s.(queue := s.queue[1..], consumer := Holding(event))
            && (forall outcome: Decoded<V> :: var d: Step<V> := Decode(outcome);
                  Enabled(held, d) <==> event.source == "mqtt" || event.source == "snmp" || outcome.Failed?)
            && (event.source == "mqtt" || event.source == "snmp" ==>
                  Enabled(Do(held, decode), send) &&
                  Do(Do(held, decode), send) ==
                  s.(queue := s.queue[1..], handled := s.handled + [Handled(event, Decoded(value))],
                     forwarded := s.forwarded + [value]))
  {
  }

  /** After a cancellation an idle consumer may stop, and a stopped one takes no step ever again. */
  lemma Stops<V(!new)>(s: State<V>)
    ensures var cancel: Step<V>, see: Step<V> := Cancel, SeeDone;
            && Enabled(s, cancel) && Do(s, cancel) == s.(cancelled := true)
            && (Enabled(s, see) <==> s.consumer.Idle? && s.cancelled)
            && (Enabled(s, see) ==> Do(s, see) == s.(consumer := Stopped))
    ensures s.consumer.Stopped? ==> forall step: Step<V> :: Enabled(s, step) ==>
              && Do(s, step).consumer == s.consumer && Do(s, step).handled == s.handled
              && Do(s, step).forwarded == s.forwarded
  {
  }

  // ----- histories -----

  function AcceptedEvents(accepted: seq<Accepted>): seq<Event> {
    if accepted == [] then [] else AcceptedEvents(accepted[..|accepted| - 1]) + [accepted[|accepted| - 1].event]
  }

  function EventsOf<V>(handled: seq<Handled<V>>): seq<Event> {
    if handled == [] then [] else EventsOf(handled[..|handled| - 1]) + [handled[|handled| - 1].event]
  }

  /** The values of the events that decoded, in order. */
  function ValuesOf<V>(handled: seq<Handled<V>>): seq<V> {
    if handled == [] then []
    else
      var front, last := ValuesOf(handled[..|handled| - 1]), handled[|handled| - 1].outcome;
      if last.Decoded? then front + [last.value] else front
  }

  function InFlight<V>(c: Consumer<V>): (events: seq<Event>)
    ensures |events| <= 1
  {
    match c
    case Holding(e) => [e]
    case Sending(e, _) => [e]
    case _ => []
  }

  /** The payloads of the accepted events that came over HTTP. */
  function HttpPayloads(accepted: seq<Accepted>): seq<bytes> {
    if accepted == [] then []
    else
      var front, last := HttpPayloads(accepted[..|accepted| - 1]), accepted[|accepted| - 1].event;
      if last.source == "http" then front + [last.data] else front
  }

  /** The payloads of the requests answered 200, in the order of the answers. */
  function Confirmed(answers: seq<Answer>): seq<bytes> {
    if answers == [] then []
    else
      var front, last := Confirmed(answers[..|answers| - 1]), answers[|answers| - 1];
      if last.status == 200 then front + [last.payload] else front
  }

  /** The payloads of the requests with status 200 that have, or have not yet, written their answer. */
  function Payloads(pushes: seq<Push>, answered: bool): multiset<bytes> {
    if pushes == [] then multiset{}
    else
      var front, last := Payloads(pushes[..|pushes| - 1], answered), pushes[|pushes| - 1];
      if last.status == 200 && last.answered == answered then front + multiset{last.payload} else front
  }

  // ----- what every run keeps -----

  /** No event is lost, duplicated or reordered on its way through channel and consumer. */
  ghost predicate ChannelInv<V(!new)>(s: State<V>) {
    && AcceptedEvents(s.accepted) == EventsOf(s.handled) + InFlight(s.consumer) + s.queue
    && |s.queue| <= s.capacity
    && s.forwarded == ValuesOf(s.handled)
    && (forall i {:trigger s.handled[i]} :: 0 <= i < |s.handled| && !Dispatched(s.handled[i].event.source) ==>
          s.handled[i].outcome.Failed?)
    && (s.consumer.Sending? ==> Dispatched(s.consumer.event.source))
  }

  /** The event of a request is in the channel's history exactly if the request is going to answer 200, or has. */
  ghost predicate OriginInv<V(!new)>(s: State<V>) {
    && (forall k {:trigger s.accepted[k]} :: 0 <= k < |s.accepted| ==>
          match s.accepted[k].push
          case None => s.accepted[k].event.source != "http"
          case Some(id) => id < |s.pushes| && s.pushes[id].status == 200
                           && s.accepted[k].event == HttpEvent(s.pushes[id].payload))
    && (forall k, l {:trigger s.accepted[k], s.accepted[l]} ::
          0 <= k < l < |s.accepted| && s.accepted[k].push.Some? && s.accepted[l].push.Some? ==>
            s.accepted[k].push.value < s.accepted[l].push.value)
    && (forall id {:trigger s.pushes[id]} :: 0 <= id < |s.pushes| && s.pushes[id].status == 200 ==> WasAccepted(s, id))
  }

  ghost predicate WasAccepted<V(!new)>(s: State<V>, id: nat) {
    exists k {:trigger s.accepted[k]} :: 0 <= k < |s.accepted| && s.accepted[k].push == Some(id)
  }

  /** An answer says what its request decided, and a request answers at most once. */
  ghost predicate AnswerInv<V(!new)>(s: State<V>) {
    && (forall a {:trigger s.answers[a]} :: 0 <= a < |s.answers| ==>
          var id := s.answers[a].push;
          id < |s.pushes| && s.pushes[id] == Push(s.answers[a].status, s.answers[a].payload, true))
    && (forall a, b {:trigger s.answers[a], s.answers[b]} ::
          0 <= a < b < |s.answers| ==> s.answers[a].push != s.answers[b].push)
  }

  ghost predicate CountInv<V(!new)>(s: State<V>) {
    && multiset(HttpPayloads(s.accepted)) == Payloads(s.pushes, true) + Payloads(s.pushes, false)
    && multiset(Confirmed(s.answers)) == Payloads(s.pushes, true)
  }

  ghost predicate Inv<V(!new)>(s: State<V>) {
    ChannelInv(s) && OriginInv(s) && AnswerInv(s) && CountInv(s)
  }

  lemma Appended<T>(s: seq<T>, x: T)
    ensures (s + [x])[..|s + [x]| - 1] == s && (s + [x])[|s + [x]| - 1] == x
  {
  }

  // ----- the producers -----

  lemma OfferKeepsChannelInv<V(!new)>(s: State<V>, event: Event, push: Option<nat>)
    requires ChannelInv(s)
    ensures ChannelInv(Offer(s, event, push))
  {
    hide EventsOf, ValuesOf;
    Appended(s.accepted, Accepted(event, push));
  }

  /** A non-blocking send by the MQTT or the trap listener, taken or dropped. */
  lemma OfferKeepsInv<V(!new)>(s: State<V>, event: Event)
    requires Inv(s) && event.source != "http"
    ensures Inv(Offer(s, event, None))
  {
    hide ChannelInv, EventsOf, ValuesOf, Confirmed, Payloads;
    OfferKeepsChannelInv(s, event, None);
    Appended(s.accepted, Accepted(event, None));
    OriginAfterOffer(s, event);
  }

  lemma OriginAfterOffer<V(!new)>(s: State<V>, event: Event)
    requires OriginInv(s) && event.source != "http"
    ensures OriginInv(Offer(s, event, None))
  {
    var s' := Offer(s, event, None);
    assert forall k {:trigger s'.accepted[k]} :: 0 <= k < |s.accepted| ==> s'.accepted[k] == s.accepted[k];
    forall id {:trigger s'.pushes[id]} | 0 <= id < |s'.pushes| && s'.pushes[id].status == 200
      ensures WasAccepted(s', id)
    {
      StaysAccepted(s, s', id);
    }
  }

  lemma StaysAccepted<V(!new)>(s: State<V>, s': State<V>, id: nat)
    requires OriginInv(s) && s.accepted <= s'.accepted
    requires id < |s.pushes| && s.pushes[id].status == 200
    ensures WasAccepted(s', id)
  {
    assert WasAccepted(s, id);
    var k :| 0 <= k < |s.accepted| && s.accepted[k].push == Some(id);
    assert s'.accepted[k] == s.accepted[k];
  }

  /** A request that is refused, for whatever reason, leaves the channel alone. */
  lemma RefusalKeepsInv<V(!new)>(s: State<V>, status: nat, payload: bytes)
    requires Inv(s) && status != 200
    ensures Inv(Join(s, status, payload))
  {
    hide ChannelInv, EventsOf, ValuesOf, Confirmed, HttpPayloads, WasAccepted;
    var s' := Join(s, status, payload);
    Appended(s.pushes, Push(status, payload, false));
    assert ChannelInv(s') by { SameChannel(s, s'); }
    OriginAfterJoin(s, status, payload);
  }

  lemma SameChannel<V(!new)>(s: State<V>, s': State<V>)
    requires ChannelInv(s)
    requires s' == s.(pushes := s'.pushes, answers := s'.answers)
    ensures ChannelInv(s')
  {
    hide EventsOf, ValuesOf, AcceptedEvents, InFlight, Dispatched;
  }

  lemma OriginAfterJoin<V(!new)>(s: State<V>, status: nat, payload: bytes)
    requires OriginInv(s) && status != 200
    ensures OriginInv(Join(s, status, payload))
  {
    var s' := Join(s, status, payload);
    assert forall i {:trigger s'.pushes[i]} :: 0 <= i < |s.pushes| ==> s'.pushes[i] == s.pushes[i];
    forall id {:trigger s'.pushes[id]} | 0 <= id < |s'.pushes| && s'.pushes[id].status == 200
      ensures WasAccepted(s', id)
    {
      StaysAccepted(s, s', id);
    }
  }

  /** A request whose event the channel takes. */
  lemma AcceptKeepsInv<V(!new)>(s: State<V>, payload: bytes)
    requires Inv(s) && HasRoom(s)
    ensures Inv(Join(Offer(s, HttpEvent(payload), Some(|s.pushes|)), 200, payload))
  {
    hide ChannelInv, OriginInv, CountInv, EventsOf, ValuesOf;
    var offered := Offer(s, HttpEvent(payload), Some(|s.pushes|));
    var s' := Join(offered, 200, payload);
    OfferKeepsChannelInv(s, HttpEvent(payload), Some(|s.pushes|));
    SameChannel(offered, s');
    OriginAfterAccept(s, payload);
    CountAfterAccept(s, payload);
    assert forall i {:trigger s'.pushes[i]} :: 0 <= i < |s.pushes| ==> s'.pushes[i] == s.pushes[i];
  }

  lemma CountAfterAccept<V(!new)>(s: State<V>, payload: bytes)
    requires CountInv(s) && HasRoom(s)
    ensures CountInv(Join(Offer(s, HttpEvent(payload), Some(|s.pushes|)), 200, payload))
  {
    var entry, push := Accepted(HttpEvent(payload), Some(|s.pushes|)), Push(200, payload, false);
    HttpPayloadsSnoc(s.accepted, entry);
    PayloadsSnoc(s.pushes, push);
    hide Payloads, HttpPayloads, Confirmed;
    AddToSum(multiset(HttpPayloads(s.accepted)), Payloads(s.pushes, true), Payloads(s.pushes, false), payload);
  }

  lemma {:induction false} HttpPayloadsSnoc(accepted: seq<Accepted>, entry: Accepted)
    requires entry.event.source == "http"
    ensures multiset(HttpPayloads(accepted + [entry])) == multiset(HttpPayloads(accepted)) + multiset{entry.event.data}
  {
    Appended(accepted, entry);
    var front := HttpPayloads(accepted);
    assert HttpPayloads(accepted + [entry]) == front + [entry.event.data];
  }

  lemma AddToSum(sum: multiset<bytes>, a: multiset<bytes>, b: multiset<bytes>, x: bytes)
    requires sum == a + b
    ensures sum + multiset{x} == a + (b + multiset{x})
  {
  }

  lemma OriginAfterAccept<V(!new)>(s: State<V>, payload: bytes)
    requires OriginInv(s) && HasRoom(s)
    ensures OriginInv(Join(Offer(s, HttpEvent(payload), Some(|s.pushes|)), 200, payload))
  {
    var s' := Join(Offer(s, HttpEvent(payload), Some(|s.pushes|)), 200, payload);
    assert forall k {:trigger s'.accepted[k]} :: 0 <= k < |s.accepted| ==> s'.accepted[k] == s.accepted[k];
    assert forall i {:trigger s'.pushes[i]} :: 0 <= i < |s.pushes| ==> s'.pushes[i] == s.pushes[i];
    forall id {:trigger s'.pushes[id]} | 0 <= id < |s'.pushes| && s'.pushes[id].status == 200
      ensures WasAccepted(s', id)
    {
      if id < |s.pushes| {
        StaysAccepted(s, s', id);
      } else {
        assert s'.accepted[|s.accepted|].push == Some(id);
      }
    }
  }

  lemma PushKeepsInv<V(!new)>(s: State<V>, post: bool, body: Body)
    requires Inv(s)
    ensures Inv(HandlePush(s, post, body))
  {
    hide Inv, Join, Offer;
    if post && body.Read? && body.payload != [] && HasRoom(s) {
      AcceptKeepsInv(s, body.payload);
    } else if post && body.Read? && body.payload != [] {
      RefusalKeepsInv(s, 503, body.payload);
    } else {
      RefusalKeepsInv(s, if !post then 405 else if body.Unreadable? then 500 else 400, []);
    }
  }

  /** Writing its answer moves a request's payload from the pending to the answered ones. */
  lemma {:induction false} PayloadsAfterAnswer(pushes: seq<Push>, id: nat)
    requires id < |pushes| && !pushes[id].answered
    ensures var after := pushes[id := pushes[id].(answered := true)];
            if pushes[id].status == 200 then
              && Payloads(after, true) == Payloads(pushes, true) + multiset{pushes[id].payload}
              && Payloads(after, false) + multiset{pushes[id].payload} == Payloads(pushes, false)
            else
              Payloads(after, true) == Payloads(pushes, true) && Payloads(after, false) == Payloads(pushes, false)
    decreases |pushes|
  {
    var after := pushes[id := pushes[id].(answered := true)];
    var n := |pushes| - 1;
    var front, last := pushes[..n], pushes[n];
    assert pushes == front + [last] && after == after[..n] + [after[n]];
    PayloadsSnoc(front, last);
    PayloadsSnoc(after[..n], after[n]);
    hide Payloads;
    if id < n {
      assert after[..n] == front[id := front[id].(answered := true)] && after[n] == last;
      PayloadsAfterAnswer(front, id);
      if pushes[id].status == 200 {
        Regroup(Payloads(front, true), pushes[id].payload, last.payload);
        Regroup(Payloads(after[..n], false), pushes[id].payload, last.payload);
      }
    } else {
      assert after[..n] == front;
    }
  }

  lemma {:induction false} PayloadsSnoc(pushes: seq<Push>, p: Push)
    ensures forall answered ::
              Payloads(pushes + [p], answered) ==
              if p.status == 200 && p.answered == answered then Payloads(pushes, answered) + multiset{p.payload}
              else Payloads(pushes, answered)
  {
    Appended(pushes, p);
  }

  lemma Regroup(a: multiset<bytes>, x: bytes, y: bytes)
    ensures a + multiset{x} + multiset{y} == a + multiset{y} + multiset{x}
  {
  }

  lemma AnswerKeepsInv<V(!new)>(s: State<V>, id: nat)
    requires Inv(s) && id < |s.pushes| && !s.pushes[id].answered
    ensures Inv(WriteAnswer(s, id))
  {
    hide ChannelInv, OriginInv, EventsOf, ValuesOf, HttpPayloads, Payloads;
    var s' := WriteAnswer(s, id);
    SameChannel(s, s');
    OriginAfterAnswer(s, id);
    PayloadsAfterAnswer(s.pushes, id);
    Appended(s.answers, Answer(id, s.pushes[id].status, s.pushes[id].payload));
    assert forall a {:trigger s'.answers[a]} :: 0 <= a < |s.answers| ==> s'.answers[a] == s.answers[a];
  }

  lemma OriginAfterAnswer<V(!new)>(s: State<V>, id: nat)
    requires OriginInv(s) && id < |s.pushes|
    ensures OriginInv(WriteAnswer(s, id))
  {
    var s' := WriteAnswer(s, id);
    forall i {:trigger s'.pushes[i]} | 0 <= i < |s'.pushes| && s'.pushes[i].status == 200 ensures WasAccepted(s', i) {
      assert s.pushes[i].status == 200;
      StaysAccepted(s, s', i);
    }
  }

  // ----- the consumer -----

  lemma SettleKeepsInv<V(!new)>(s: State<V>, event: Event, outcome: Decoded<V>)
    requires ChannelInv(s) && InFlight(s.consumer) == [event]
    requires !Dispatched(event.source) ==> outcome.Failed?
    ensures ChannelInv(Settle(s, event, outcome))
  {
    hide AcceptedEvents, Dispatched;
    var s' := Settle(s, event, outcome);
    Appended(s.handled, Handled(event, outcome));
    assert EventsOf(s'.handled) == EventsOf(s.handled) + [event];
    assert EventsOf(s'.handled) + [] + s.queue == EventsOf(s.handled) + [event] + s.queue;
    assert forall i {:trigger s'.handled[i]} :: 0 <= i < |s.handled| ==> s'.handled[i] == s.handled[i];
  }

  lemma ReceiveKeepsInv<V(!new)>(s: State<V>)
    requires ChannelInv(s) && s.consumer.Idle? && s.queue != []
    ensures ChannelInv(s.(queue := s.queue[1..], consumer := Holding(s.queue[0])))
  {
    hide EventsOf, ValuesOf, AcceptedEvents, Dispatched;
    assert s.queue == [s.queue[0]] + s.queue[1..];
    assert EventsOf(s.handled) + [] + s.queue == EventsOf(s.handled) + [s.queue[0]] + s.queue[1..];
  }

  /** A step that leaves the requests and the channel's history alone keeps what is said of them. */
  lemma ConsumerKeepsHttp<V(!new)>(s: State<V>, s': State<V>)
    requires Inv(s) && s'.accepted == s.accepted && s'.pushes == s.pushes && s'.answers == s.answers
    ensures OriginInv(s') && AnswerInv(s') && CountInv(s')
  {
    hide ChannelInv, HttpPayloads, Confirmed, Payloads;
    forall id {:trigger s'.pushes[id]} | 0 <= id < |s'.pushes| && s'.pushes[id].status == 200
      ensures WasAccepted(s', id)
    {
      StaysAccepted(s, s', id);
    }
  }

  lemma ConsumerKeepsChannelInv<V(!new)>(s: State<V>, step: Step<V>)
    requires ChannelInv(s) && Enabled(s, step)
    requires step.Cancel? || step.Receive? || step.SeeDone? || step.Decode? || step.Send?
    ensures ChannelInv(Do(s, step))
  {
    hide EventsOf, ValuesOf, AcceptedEvents;
    match step
    case Receive => ReceiveKeepsInv(s);
    case Decode(outcome) => if !outcome.Decoded? { SettleKeepsInv(s, s.consumer.event, outcome); }
    case Send => SettleKeepsInv(s, s.consumer.event, Decoded(s.consumer.value));
    case _ =>
  }

  lemma StepKeepsInv<V(!new)>(s: State<V>, step: Step<V>)
    requires Inv(s) && Enabled(s, step)
    ensures Inv(Do(s, step)) && Do(s, step).capacity == s.capacity
  {
    hide ChannelInv, OriginInv, AnswerInv, CountInv;
    match step
    case HttpOffer(post, body) => PushKeepsInv(s, post, body);
    case HttpAnswer(push) => AnswerKeepsInv(s, push);
    case MqttPublish(topic, payload) => OfferKeepsInv(s, Event("mqtt", topic, payload));
    case SnmpTrap(m) => if m.Some? { OfferKeepsInv(s, Event("snmp", "snmp_trap", m.value)); }
    case _ =>
      ConsumerKeepsChannelInv(s, step);
      ConsumerKeepsHttp(s, Do(s, step));
  }

  lemma {:induction false} RunKeepsInv<V(!new)>(capacity: nat, steps: seq<Step<V>>)
    requires Run(capacity, steps).Some?
    ensures Inv(Run(capacity, steps).value) && Run(capacity, steps).value.capacity == capacity
  {
    if steps != [] {
      var front := steps[..|steps| - 1];
      RunKeepsInv(capacity, front);
      StepKeepsInv(Run(capacity, front).value, steps[|steps| - 1]);
    }
  }

  // ----- main results -----

  /** The event a producer's step puts before the channel. */
  function OfferedBy<V>(step: Step<V>): Option<Event> {
    match step
    case MqttPublish(topic, payload) => Some(Event("mqtt", topic, payload))
    case SnmpTrap(Some(marshalled)) => Some(Event("snmp", "snmp_trap", marshalled))
    case HttpOffer(true, Read(payload)) =>
      if payload == [] then None else Some(Event("http", "http_alarm_event", payload))
    case _ => None
  }

  /** The offers of a run that found fewer events queued than the channel holds, in order. */
  function Taken<V(!new)>(capacity: nat, steps: seq<Step<V>>): seq<Event>
    requires Run(capacity, steps).Some?
  {
    if steps == [] then []
    else
      var front, offered := steps[..|steps| - 1], OfferedBy(steps[|steps| - 1]);
      if offered.Some? && |Run(capacity, front).value.queue| < capacity then Taken(capacity, front) + [offered.value]
      else Taken(capacity, front)
  }

  lemma AcceptedStep<V(!new)>(s: State<V>, step: Step<V>)
    requires Enabled(s, step)
    ensures AcceptedEvents(Do(s, step).accepted) == AcceptedEvents(s.accepted) +
              if OfferedBy(step).Some? && |s.queue| < s.capacity then [OfferedBy(step).value] else []
  {
    if OfferedBy(step).Some? {
      var push := if step.HttpOffer? then Some(|s.pushes|) else None;
      Appended(s.accepted, Accepted(OfferedBy(step).value, push));
    }
  }

  lemma {:induction false} TakenIsAccepted<V(!new)>(capacity: nat, steps: seq<Step<V>>)
    requires Run(capacity, steps).Some?
    ensures AcceptedEvents(Run(capacity, steps).value.accepted) == Taken(capacity, steps)
  {
    hide AcceptedEvents, Do, Enabled, OfferedBy;
    if steps == [] {
      NothingAccepted();
    } else {
      var front := steps[..|steps| - 1];
      TakenIsAccepted(capacity, front);
      RunKeepsInv(capacity, front);
      AcceptedStep(Run(capacity, front).value, steps[|steps| - 1]);
    }
  }

  lemma NothingAccepted()
    ensures AcceptedEvents([]) == []
  {
  }

  /** In every reachable state no event is lost, duplicated or reordered: the offers that found room are the accepted
      events, and these are the handled ones, then at most one in flight, then the queued ones, and the queue stays
      within capacity; EdgeX received exactly the successful decodes of the handled events, in order, each once. */
  lemma {:induction false} ConservationAndOrder<V(!new)>(capacity: nat, steps: seq<Step<V>>)
    requires Run(capacity, steps).Some?
    ensures var s := Run(capacity, steps).value;
            && Taken(capacity, steps) == AcceptedEvents(s.accepted)
            && AcceptedEvents(s.accepted) == EventsOf(s.handled) + InFlight(s.consumer) + s.queue
            && |s.queue| <= capacity
            && s.forwarded == ValuesOf(s.handled)
  {
    RunKeepsInv(capacity, steps);
    TakenIsAccepted(capacity, steps);
  }

  /** A request is answered 200 if and only if its own event was accepted, with the payload it pushed; and no event is
      accepted twice on behalf of one request. */
  lemma {:induction false} AnsweredIffAccepted<V(!new)>(capacity: nat, steps: seq<Step<V>>, a: nat)
    requires Run(capacity, steps).Some? && a < |Run(capacity, steps).value.answers|
    ensures var s := Run(capacity, steps).value;
            var answer := s.answers[a];
            && (answer.status == 200 <==> exists k :: 0 <= k < |s.accepted| && s.accepted[k].push == Some(answer.push))
            && (forall k :: 0 <= k < |s.accepted| && s.accepted[k].push == Some(answer.push) ==>
                  s.accepted[k].event == HttpEvent(answer.payload))
            && (forall k, l ::
                  0 <= k < l < |s.accepted| && s.accepted[k].push == Some(answer.push) ==>
                    s.accepted[l].push != Some(answer.push))
  {
    hide Run, ChannelInv, CountInv;
    RunKeepsInv(capacity, steps);
    var s := Run(capacity, steps).value;
    var id := s.answers[a].push;
    assert s.pushes[id].status == s.answers[a].status;
    if s.answers[a].status == 200 { assert WasAccepted(s, id); }
  }

  /** In every reachable state the payloads confirmed with 200, with those of the requests that are yet to write their
      200, are exactly the accepted HTTP payloads; so they are the same once no request is pending. Not in the same
      order: an answer may be written later than the answer to a later send. */
  lemma {:induction false} HttpConfirmsExactlyAccepted<V(!new)>(capacity: nat, steps: seq<Step<V>>)
    requires Run(capacity, steps).Some?
    ensures var s := Run(capacity, steps).value;
            && multiset(Confirmed(s.answers)) + Payloads(s.pushes, false) == multiset(HttpPayloads(s.accepted))
            && ((forall p :: p in s.pushes ==> p.answered) ==>
                  multiset(Confirmed(s.answers)) == multiset(HttpPayloads(s.accepted)))
  {
    hide Run, ChannelInv, OriginInv, AnswerInv, Confirmed, Payloads, HttpPayloads;
    RunKeepsInv(capacity, steps);
    var s := Run(capacity, steps).value;
    if forall p :: p in s.pushes ==> p.answered { NonePending(s.pushes); }
  }

  lemma {:induction false} NonePending(pushes: seq<Push>)
    requires forall p :: p in pushes ==> p.answered
    ensures Payloads(pushes, false) == multiset{}
  {
    if pushes != [] {
      assert pushes[|pushes| - 1] in pushes;
      assert forall p :: p in pushes[..|pushes| - 1] ==> p in pushes;
      NonePending(pushes[..|pushes| - 1]);
    }
  }

  /** Two requests whose answers overtake each other: accepted in one order, confirmed in the other. */
  lemma AnswersMayOvertake<V(!new)>()
    ensures var steps: seq<Step<V>> :=
              [HttpOffer(true, Read([1])), HttpOffer(true, Read([2])), HttpAnswer(1), HttpAnswer(0)];
            Run(2, steps).Some? &&
            var s := Run(2, steps).value;
            HttpPayloads(s.accepted) == [[1], [2]] && Confirmed(s.answers) == [[2], [1]]
  {
    var one: Step<V>, two: Step<V>, three: Step<V>, four: Step<V> :=
      HttpOffer(true, Read([1])), HttpOffer(true, Read([2])), HttpAnswer(1), HttpAnswer(0);
    var none: seq<Step<V>> := [];
    assert Run(2, none) == Some(Initial(2));
    RunSnoc(2, none, one);
    RunSnoc(2, none + [one], two);
    RunSnoc(2, none + [one] + [two], three);
    RunSnoc(2, none + [one] + [two] + [three], four);
    hide Run;
    assert none + [one] + [two] + [three] + [four] == [one, two, three, four];
    var s := Run(2, [one, two, three, four]).value;
    assert s.accepted == [Accepted(HttpEvent([1]), Some(0)), Accepted(HttpEvent([2]), Some(1))];
    assert s.answers == [Answer(1, 200, [2]), Answer(0, 200, [1])];
    TwoPayloads(s.accepted, s.answers);
  }

  lemma {:induction false} RunSnoc<V(!new)>(capacity: nat, steps: seq<Step<V>>, step: Step<V>)
    requires Run(capacity, steps).Some? && Enabled(Run(capacity, steps).value, step)
    ensures Run(capacity, steps + [step]) == Some(Do(Run(capacity, steps).value, step))
  {
    hide Do, Enabled;
    Appended(steps, step);
  }

  lemma {:induction false} TwoPayloads(accepted: seq<Accepted>, answers: seq<Answer>)
    requires |accepted| == 2 == |answers|
    requires accepted[0].event.source == accepted[1].event.source == "http"
    requires answers[0].status == answers[1].status == 200
    ensures HttpPayloads(accepted) == [accepted[0].event.data, accepted[1].event.data]
    ensures Confirmed(answers) == [answers[0].payload, answers[1].payload]
  {
    assert accepted[..1][..0] == [] && answers[..1][..0] == [];
    assert HttpPayloads(accepted[..1]) == [accepted[0].event.data];
    assert Confirmed(answers[..1]) == [answers[0].payload];
  }

  function CountDecoded<V>(handled: seq<Handled<V>>, http: bool): nat {
    if handled == [] then 0
    else
      var last := handled[|handled| - 1];
      CountDecoded(handled[..|handled| - 1], http)
      + if last.outcome.Decoded? && (last.event.source == "http") == http then 1 else 0
  }

  /** An HTTP push that was answered 200 is still never forwarded: the dispatch has no decoder for its source. Every
      forwarded value comes from an MQTT or SNMP event. */
  lemma {:induction false} HttpNeverForwarded<V(!new)>(capacity: nat, steps: seq<Step<V>>)
    requires Run(capacity, steps).Some?
    ensures var s := Run(capacity, steps).value;
            && CountDecoded(s.handled, true) == 0
            && CountDecoded(s.handled, false) == |s.forwarded|
  {
    hide Run, OriginInv, AnswerInv, CountInv;
    RunKeepsInv(capacity, steps);
    CountsSplit(Run(capacity, steps).value.handled);
  }

  lemma {:induction false} CountsSplit<V>(handled: seq<Handled<V>>)
    requires forall i {:trigger handled[i]} :: 0 <= i < |handled| && !Dispatched(handled[i].event.source) ==>
                                                 handled[i].outcome.Failed?
    ensures CountDecoded(handled, true) == 0
    ensures CountDecoded(handled, false) == |ValuesOf(handled)|
  {
    if handled != [] {
      CountsSplit(handled[..|handled| - 1]);
      assert handled[|handled| - 1].event.source == "http" ==> !Dispatched("http");
    }
  }

  // ----- draining -----

  predicate IsConsumerStep<V>(step: Step<V>) {
    step.Receive? || step.SeeDone? || step.Decode? || step.Send?
  }

  /** The steps lead from one state to the other, and are the consumer's alone. */
  predicate ConsumerRuns<V(!new,==)>(s: State<V>, steps: seq<Step<V>>, end: State<V>)
    decreases |steps|
  {
    if steps == [] then s == end
    else IsConsumerStep(steps[0]) && Enabled(s, steps[0]) && ConsumerRuns(Do(s, steps[0]), steps[1..], end)
  }

  /** The consumer has nothing left to do. */
  ghost predicate Stuck<V(!new)>(s: State<V>) {
    forall step: Step<V> :: IsConsumerStep(step) ==> !Enabled(s, step)
  }

  /** How many steps the consumer can still take by itself. */
  function Work<V>(s: State<V>): nat {
    3 * |s.queue| + match s.consumer case Holding(_) => 2 case Sending(_, _) => 1 case _ => 0
  }

  /** Left to itself the consumer empties the channel, however its decodes turn out: from any reachable state that is
      not cancelled, every run of consumer steps is bounded by the work there is, and one that cannot go on has handled
      every accepted event, in order, and forwarded exactly those that decoded. */
  lemma {:induction false} Drains<V(!new)>(s: State<V>, steps: seq<Step<V>>, end: State<V>)
    requires Inv(s) && !s.cancelled && !s.consumer.Stopped? && ConsumerRuns(s, steps, end)
    ensures |steps| <= Work(s) && end.accepted == s.accepted
    ensures Stuck(end) ==> EventsOf(end.handled) == AcceptedEvents(s.accepted) && end.forwarded == ValuesOf(end.handled)
    decreases |steps|
  {
    hide ChannelInv, OriginInv, AnswerInv, CountInv, EventsOf, AcceptedEvents, ValuesOf;
    if steps == [] {
      if Stuck(s) { StuckIsDrained(s); }
    } else {
      StepKeepsInv(s, steps[0]);
      WorkShrinks(s, steps[0]);
      Drains(Do(s, steps[0]), steps[1..], end);
    }
  }

  lemma WorkShrinks<V(!new)>(s: State<V>, step: Step<V>)
    requires IsConsumerStep(step) && Enabled(s, step) && !s.cancelled && !s.consumer.Stopped?
    ensures var s' := Do(s, step);
            Work(s') < Work(s) && s'.accepted == s.accepted && !s'.cancelled && !s'.consumer.Stopped?
  {
  }

  lemma StuckIsDrained<V(!new)>(s: State<V>)
    requires Inv(s) && !s.cancelled && !s.consumer.Stopped? && Stuck(s)
    ensures EventsOf(s.handled) == AcceptedEvents(s.accepted) && s.forwarded == ValuesOf(s.handled)
  {
    hide OriginInv, AnswerInv, CountInv, EventsOf, AcceptedEvents, ValuesOf;
    var receive: Step<V>, decode: Step<V>, send: Step<V> := Receive, Decode(Failed), Send;
    assert !Enabled(s, receive) && !Enabled(s, decode) && !Enabled(s, send);
    assert EventsOf(s.handled) + [] + [] == EventsOf(s.handled);
  }
}
