/**
 * An XDCC request: connect to the IRC server, identify, wait for the first
 * private message, ask the bot for a pack with `xdcc send #<pack>`, and wait
 * for the bot's DCC SEND offer on the same message stream.
 *
 * The message stream is the sequence of items it delivers before it ends, read
 * through a cursor; each wait returns its result together with the cursor it
 * leaves behind.
 */
module XdccRequest {
  import opened RustStd
  import opened Irc
  import opened DccResponse

  /** What one request asks for: where to connect, which channel to join, which bot and which pack. */
  datatype RequestInfo = RequestInfo(server: string, channel: string, botname: string, packnum: u64)

  // ---------------------------------------------------------------------------
  // Waiting on the message stream
  // ---------------------------------------------------------------------------

  /** A wait reads past `item`: it is a message the wait does not stop on. */
  predicate Passes(item: StreamItem, stops: Message -> bool) {
    item.Ok? && !stops(item.value)
  }

  /** The position of the first item from `start` that a wait does not read past, or the end of the stream. */
  function FirstStop(items: seq<StreamItem>, start: nat, stops: Message -> bool): (stop: nat)
    requires start <= |items|
    ensures start <= stop <= |items|
    ensures forall i :: start <= i < stop ==> Passes(items[i], stops)
    ensures stop < |items| ==> !Passes(items[stop], stops)
    decreases |items| - start
  {
    if start == |items| || !Passes(items[start], stops) then start else FirstStop(items, start + 1, stops)
  }

  /**
   * A wait loop that reads from `start` until a message satisfies `stops`:
   * the item it stops on (a message, or the error the stream yielded) and the cursor
   * after that item, or `AsyncChannelClosed` and the end of the stream.
   */
  function Await(items: seq<StreamItem>, start: nat, stops: Message -> bool): (r: (StreamItem, nat))
    requires start <= |items|
    ensures start <= r.1 <= |items|
    ensures forall i :: start <= i < r.1 - 1 ==> Passes(items[i], stops)
    ensures (exists i :: start <= i < |items| && !Passes(items[i], stops)) ==>
      start < r.1 && r.0 == items[r.1 - 1] && !Passes(r.0, stops)
    ensures || r == (Err(AsyncChannelClosed), |items|)
            || (start < r.1 && r.0 == items[r.1 - 1] && !Passes(r.0, stops))
  {
    var stop := FirstStop(items, start, stops);
    if stop == |items| then (Err(AsyncChannelClosed), |items|) else (items[stop], stop + 1)
  }

  /** What `wait_for_first_private_message` returns, and where it leaves the stream. */
  function FirstPrivateMessage(items: seq<StreamItem>, start: nat): (r: (Result<(), IrcError>, nat))
    requires start <= |items|
    ensures start <= r.1 <= |items|
    ensures r.0.Ok? ==> start < r.1 && items[r.1 - 1].Ok? && IsPrivmsg(items[r.1 - 1].value)
    ensures r.0.Err? ==>
      || r == (Err(AsyncChannelClosed), |items|)
      || (start < r.1 && items[r.1 - 1] == Err(r.0.error))
  {
    var (item, next) := Await(items, start, IsPrivmsg);
    (if item.Ok? then Ok(()) else Err(item.error), next)
  }

  /** The DCC SEND offer a message carries, if it is a private message whose text decodes. */
  function OfferOf(m: Message): Option<Response> {
    if m.command.Privmsg? then Decode(m.command.text) else None
  }

  predicate IsDccOffer(m: Message) {
    OfferOf(m).Some?
  }

  /** What `wait_for_dcc_response` returns, and where it leaves the stream. */
  function FirstDccOffer(items: seq<StreamItem>, start: nat): (r: (Result<Response, IrcError>, nat))
    requires start <= |items|
    ensures start <= r.1 <= |items|
    ensures r.0.Ok? ==> start < r.1 && items[r.1 - 1].Ok? && OfferOf(items[r.1 - 1].value) == Some(r.0.value)
    ensures r.0.Err? ==>
      || r == (Err(AsyncChannelClosed), |items|)
      || (start < r.1 && items[r.1 - 1] == Err(r.0.error))
  {
    var (item, next) := Await(items, start, IsDccOffer);
    if item.Err? then (Err(item.error), next)
    else
      var offer := OfferOf(item.value);
      assert item == items[next - 1] && offer.Some?;
      (Ok(offer.value), next)
  }

  /** `wait_for_first_private_message`: read until the first `PRIVMSG`, whatever its target or text. */
  method WaitForFirstPrivateMessage(items: seq<StreamItem>, start: nat) returns (res: Result<(), IrcError>, next: nat)
    requires start <= |items|
    ensures (res, next) == FirstPrivateMessage(items, start)
  {
    next := start;
    while next < |items|
      invariant start <= next <= |items|
      invariant FirstStop(items, next, IsPrivmsg) == FirstStop(items, start, IsPrivmsg)
    {
      var item := items[next];
      if item.Err? || item.value.command.Privmsg? {
        AwaitReaches(items, start, IsPrivmsg, next);
        res, next := (if item.Err? then Err(item.error) else Ok(())), next + 1;
        return;
      }
      FirstStopPasses(items, next, IsPrivmsg);
      next := next + 1;
    }
    AwaitReaches(items, start, IsPrivmsg, next);
    res := Err(AsyncChannelClosed);
  }

  /**
   * `wait_for_dcc_response`: read until the first `PRIVMSG` whose text decodes as a
   * DCC SEND offer, and return the offer; the message's target is not looked at.
   */
  method WaitForDccResponse(items: seq<StreamItem>, start: nat) returns (res: Result<Response, IrcError>, next: nat)
    requires start <= |items|
    ensures (res, next) == FirstDccOffer(items, start)
  {
    next := start;
    while next < |items|
      invariant start <= next <= |items|
      invariant FirstStop(items, next, IsDccOffer) == FirstStop(items, start, IsDccOffer)
    {
      var item := items[next];
      if item.Err? {
        AwaitReaches(items, start, IsDccOffer, next);
        res, next := Err(item.error), next + 1;
        return;
      }
      if item.value.command.Privmsg? {
        var offer := Decode(item.value.command.text);
        if offer.Some? {
          assert OfferOf(item.value) == offer;
          AwaitReaches(items, start, IsDccOffer, next);
          res, next := Ok(offer.value), next + 1;
          return;
        }
      }
      FirstStopPasses(items, next, IsDccOffer);
      next := next + 1;
    }
    AwaitReaches(items, start, IsDccOffer, next);
    res := Err(AsyncChannelClosed);
  }

  /** Reading past one item does not move the first stop. */
  lemma FirstStopPasses(items: seq<StreamItem>, i: nat, stops: Message -> bool)
    requires i < |items| && Passes(items[i], stops)
    ensures FirstStop(items, i, stops) == FirstStop(items, i + 1, stops)
  {
  }

  /** A wait loop that has read up to `i` without passing its first stop ends at `i` when `items[i]` stops it. */
  lemma AwaitReaches(items: seq<StreamItem>, start: nat, stops: Message -> bool, i: nat)
    requires start <= i <= |items|
    requires FirstStop(items, i, stops) == FirstStop(items, start, stops)
    requires i < |items| ==> !Passes(items[i], stops)
    ensures Await(items, start, stops) == if i == |items| then (Err(AsyncChannelClosed), |items|) else (items[i], i + 1)
  {
  }

  /** A wait stops exactly at the first item it does not read past, and at the end of the stream if there is none. */
  lemma AwaitStopsAt(items: seq<StreamItem>, start: nat, stops: Message -> bool, i: nat)
    requires start <= i <= |items|
    requires forall j :: start <= j < i ==> Passes(items[j], stops)
    requires i < |items| ==> !Passes(items[i], stops)
    ensures Await(items, start, stops) == if i == |items| then (Err(AsyncChannelClosed), |items|) else (items[i], i + 1)
  {
    FirstStopAt(items, start, stops, i);
  }

  /** An index that every earlier item passes and that is the end or an item that does not pass is the first stop. */
  lemma {:induction false} FirstStopAt(items: seq<StreamItem>, start: nat, stops: Message -> bool, i: nat)
    requires start <= i <= |items|
    requires forall j :: start <= j < i ==> Passes(items[j], stops)
    requires i < |items| ==> !Passes(items[i], stops)
    ensures FirstStop(items, start, stops) == i
    decreases i - start
  {
    if start < i {
      FirstStopAt(items, start + 1, stops, i);
    }
  }

  /**
   * A wait looks at nothing before its cursor: waiting from `start` is waiting on the
   * rest of the stream from its beginning, with the cursor shifted by `start`.
   */
  lemma {:induction false} AwaitFromSuffix(items: seq<StreamItem>, start: nat, stops: Message -> bool)
    requires start <= |items|
    ensures var r := Await(items[start..], 0, stops);
      Await(items, start, stops) == (r.0, start + r.1)
  {
    var stop := FirstStop(items, start, stops);
    var rest := items[start..];
    assert forall j :: 0 <= j < stop - start ==> rest[j] == items[start + j];
    FirstStopAt(rest, 0, stops, stop - start);
    if stop < |items| {
      assert rest[stop - start] == items[stop];
    }
  }

  /**
   * A wait that stops on an item examines nothing after it: whatever follows the
   * item it stopped on, waiting again from `start` gives the same item and cursor.
   */
  lemma AwaitIgnoresLaterItems(items: seq<StreamItem>, start: nat, stops: Message -> bool, rest: seq<StreamItem>)
    requires start <= |items|
    requires FirstStop(items, start, stops) < |items|
    ensures var cursor := Await(items, start, stops).1;
      Await(items[..cursor] + rest, start, stops) == Await(items, start, stops)
  {
    var stop := FirstStop(items, start, stops);
    var longer := items[..stop + 1] + rest;
    assert forall j :: 0 <= j <= stop ==> longer[j] == items[j];
    AwaitStopsAt(longer, start, stops, stop);
  }

  /**
   * A wait ends on a message exactly when some message it stops on arrives with no
   * stream error before it; the message is the first such, and every item before it
   * was read past.
   */
  lemma AwaitStopsOnMessage(items: seq<StreamItem>, start: nat, stops: Message -> bool)
    requires start <= |items|
    ensures Await(items, start, stops).0.Ok? <==>
      exists i :: start <= i < |items| && items[i].Ok? && stops(items[i].value)
        && forall j :: start <= j < i ==> items[j].Ok?
    ensures Await(items, start, stops).0.Ok? ==>
      var i := Await(items, start, stops).1 - 1;
      && start <= i && items[i] == Await(items, start, stops).0 && stops(items[i].value)
      && forall j :: start <= j < i ==> Passes(items[j], stops)
  {
    var stop := FirstStop(items, start, stops);
    if exists i :: start <= i < |items| && items[i].Ok? && stops(items[i].value)
        && forall j :: start <= j < i ==> items[j].Ok? {
      var i :| start <= i < |items| && items[i].Ok? && stops(items[i].value)
        && forall j :: start <= j < i ==> items[j].Ok?;
      assert stop <= i;
      assert items[stop].Ok?;
    }
  }

  /**
   * The first wait succeeds exactly when some `PRIVMSG` arrives with no stream
   * error before it; it then leaves the cursor just after the first `PRIVMSG`.
   */
  lemma FirstPrivateMessageSucceeds(items: seq<StreamItem>, start: nat)
    requires start <= |items|
    ensures FirstPrivateMessage(items, start).0.Ok? <==>
      exists i :: start <= i < |items| && items[i].Ok? && IsPrivmsg(items[i].value)
        && forall j :: start <= j < i ==> items[j].Ok?
    ensures FirstPrivateMessage(items, start).0.Ok? ==>
      var i := FirstPrivateMessage(items, start).1 - 1;
      start <= i && items[i].Ok? && IsPrivmsg(items[i].value)
        && forall j :: start <= j < i ==> items[j].Ok? && !IsPrivmsg(items[j].value)
  {
    AwaitStopsOnMessage(items, start, IsPrivmsg);
  }

  /** A stream that ends before any `PRIVMSG` or error makes the first wait fail with `AsyncChannelClosed` at its end. */
  lemma FirstPrivateMessageClosed(items: seq<StreamItem>, start: nat)
    requires start <= |items|
    requires forall j :: start <= j < |items| ==> items[j].Ok? && !IsPrivmsg(items[j].value)
    ensures FirstPrivateMessage(items, start) == (Err(AsyncChannelClosed), |items|)
  {
    AwaitStopsAt(items, start, IsPrivmsg, |items|);
  }

  /**
   * An error the stream yields ends either wait at once with that error, and the
   * cursor stops just after it.
   */
  lemma StreamErrorEndsWaits(items: seq<StreamItem>, start: nat, i: nat)
    requires start <= i < |items| && items[i].Err?
    ensures (forall j :: start <= j < i ==> items[j].Ok? && !IsPrivmsg(items[j].value)) ==>
      FirstPrivateMessage(items, start) == (Err(items[i].error), i + 1)
    ensures (forall j :: start <= j < i ==> items[j].Ok? && !IsDccOffer(items[j].value)) ==>
      FirstDccOffer(items, start) == (Err(items[i].error), i + 1)
  {
    if forall j :: start <= j < i ==> items[j].Ok? && !IsPrivmsg(items[j].value) {
      AwaitStopsAt(items, start, IsPrivmsg, i);
    }
    if forall j :: start <= j < i ==> items[j].Ok? && !IsDccOffer(items[j].value) {
      AwaitStopsAt(items, start, IsDccOffer, i);
    }
  }

  /**
   * The second wait returns an offer exactly when the stream delivers, with no error
   * before it, a `PRIVMSG` whose text decodes.
   */
  lemma FirstDccOfferSucceeds(items: seq<StreamItem>, start: nat)
    requires start <= |items|
    ensures FirstDccOffer(items, start).0.Ok? <==>
      exists i :: start <= i < |items| && items[i].Ok? && IsDccOffer(items[i].value)
        && forall j :: start <= j < i ==> items[j].Ok?
  {
    AwaitStopsOnMessage(items, start, IsDccOffer);
  }

  /**
   * When the second wait succeeds, the offer is the decoded text of the `PRIVMSG` just
   * before the cursor, and every item the wait read past was a message that is no offer.
   */
  lemma FirstDccOfferFound(items: seq<StreamItem>, start: nat, offer: Response, next: nat)
    requires start <= |items| && FirstDccOffer(items, start) == (Ok(offer), next)
    ensures start < next
    ensures items[next - 1].Ok? && items[next - 1].value.command.Privmsg?
    ensures Decode(items[next - 1].value.command.text) == Some(offer)
    ensures forall j :: start <= j < next - 1 ==> items[j].Ok? && !IsDccOffer(items[j].value)
  {
    var (item, n) := Await(items, start, IsDccOffer);
    assert n == next && item.Ok?;
    AwaitEndsOnMessage(items, start, IsDccOffer);
    assert OfferOf(items[next - 1].value) == Some(offer);
  }

  /** A wait that ends on a message stops just after it, and every item before it was a message it read past. */
  lemma AwaitEndsOnMessage(items: seq<StreamItem>, start: nat, stops: Message -> bool)
    requires start <= |items| && Await(items, start, stops).0.Ok?
    ensures var next := Await(items, start, stops).1;
      && start < next && items[next - 1].Ok? && stops(items[next - 1].value)
      && forall j :: start <= j < next - 1 ==> items[j].Ok? && !stops(items[j].value)
  {
    var next := Await(items, start, stops).1;
    forall j | start <= j < next - 1
      ensures items[j].Ok? && !stops(items[j].value)
    {
      assert Passes(items[j], stops);
    }
  }

  /** A stream that ends before any decodable `PRIVMSG` or error makes the second wait fail with `AsyncChannelClosed`. */
  lemma FirstDccOfferClosed(items: seq<StreamItem>, start: nat)
    requires start <= |items|
    requires forall j :: start <= j < |items| ==> items[j].Ok? && !IsDccOffer(items[j].value)
    ensures FirstDccOffer(items, start) == (Err(AsyncChannelClosed), |items|)
  {
    AwaitStopsAt(items, start, IsDccOffer, |items|);
  }

  /** Two items that differ at most in the target of a private message. */
  predicate SameButTarget(x: StreamItem, y: StreamItem) {
    || x == y
    || (&& x.Ok? && y.Ok?
        && x.value.command.Privmsg? && y.value.command.Privmsg?
        && x.value.command.text == y.value.command.text)
  }

  /** Whether a wait reads past an item does not depend on the target of a private message. */
  lemma PassesIgnoresTarget(x: StreamItem, y: StreamItem)
    requires SameButTarget(x, y)
    ensures Passes(x, IsPrivmsg) <==> Passes(y, IsPrivmsg)
    ensures Passes(x, IsDccOffer) <==> Passes(y, IsDccOffer)
    ensures x.Ok? ==> OfferOf(x.value) == OfferOf(y.value)
  {
  }

  /**
   * The first wait does not look at whom a private message is addressed to: streams
   * that differ only in targets give the same result and cursor.
   */
  lemma FirstPrivateMessageIgnoresTarget(a: seq<StreamItem>, b: seq<StreamItem>, start: nat)
    requires |a| == |b| && start <= |a|
    requires forall i :: 0 <= i < |a| ==> SameButTarget(a[i], b[i])
    ensures FirstPrivateMessage(a, start) == FirstPrivateMessage(b, start)
  {
    var p := FirstStop(a, start, IsPrivmsg);
    forall j | start <= j < p {
      PassesIgnoresTarget(a[j], b[j]);
    }
    if p < |a| {
      PassesIgnoresTarget(a[p], b[p]);
    }
    AwaitStopsAt(b, start, IsPrivmsg, p);
  }

  /**
   * The second wait does not check that the offer comes from the bot it asked:
   * streams that differ only in targets give the same offer and cursor.
   */
  lemma FirstDccOfferIgnoresTarget(a: seq<StreamItem>, b: seq<StreamItem>, start: nat)
    requires |a| == |b| && start <= |a|
    requires forall i :: 0 <= i < |a| ==> SameButTarget(a[i], b[i])
    ensures FirstDccOffer(a, start) == FirstDccOffer(b, start)
  {
    var d := FirstStop(a, start, IsDccOffer);
    forall j | start <= j < d {
      PassesIgnoresTarget(a[j], b[j]);
    }
    if d < |a| {
      PassesIgnoresTarget(a[d], b[d]);
    }
    AwaitStopsAt(b, start, IsDccOffer, d);
  }

  // ---------------------------------------------------------------------------
  // The request
  // ---------------------------------------------------------------------------

  /** The configuration a request connects with: the generated names, the request's server, and its channel alone. */
  function RequestConfig(info: RequestInfo, nickname: Option<string>, username: Option<string>): (c: Config)
    ensures c.server == Some(info.server) && c.channels == [info.channel]
    ensures c.nickname == nickname && c.username == username
  {
    Config(nickname, username, Some(info.server), [info.channel])
  }

  /** The text of a pack request, before the pack number. */
  const PackRequestPrefix: string := "xdcc send #"

  /**
   * `format!("xdcc send #{}", packnum)`: the prefix, then ASCII digits that denote the pack
   * number, with no leading zero unless the number is zero.
   */
  function RequestText(packnum: u64): (text: string)
    ensures PackRequestPrefix <= text
    ensures var digits := text[|PackRequestPrefix|..];
      && digits != [] && AllDigits(digits) && DigitsValue(digits) == packnum as nat
      && (digits[0] == '0' <==> packnum == 0)
  {
    DecimalStringValue(packnum as nat);
    var text := PackRequestPrefix + DecimalString(packnum as nat);
    assert text[|PackRequestPrefix|..] == DecimalString(packnum as nat);
    text
  }

  /** One step of a request, as it is carried out against the server. */
  datatype Action =
    | Connect(config: Config)
    | Identify
    | OpenStream
    | AwaitPrivateMessage
    | SendPrivmsg(target: string, text: string)
    | AwaitDccResponse

  /** The steps of a request in the order it takes them; one that fails ends the request. */
  function Plan(info: RequestInfo, nickname: Option<string>, username: Option<string>): seq<Action> {
    [ Connect(RequestConfig(info, nickname, username)),
      Identify,
      OpenStream,
      AwaitPrivateMessage,
      SendPrivmsg(info.botname, RequestText(info.packnum)),
      AwaitDccResponse ]
  }

  /**
   * When each wait's timer elapses, counted in stream items: `Some(k)` means the
   * timeout passes once `k` items have reached that wait, so a wait that needs a
   * further item is cancelled; `None` means every item arrives in time.
   */
  datatype Timers = Timers(first: Option<nat>, second: Option<nat>)

  /**
   * `tokio::time::timeout(..).map_err(|_| Error::PingTimeout)` flattened with `?`:
   * the wait's own result, unless it needed more items than arrived before the timer elapsed.
   */
  function WithTimeout<T>(r: Result<T, IrcError>, consumed: nat, timer: Option<nat>): (t: Result<T, IrcError>)
    ensures t == r || t == Err(PingTimeout)
    ensures timer.None? ==> t == r
  {
    if timer.Some? && consumed > timer.value then Err(PingTimeout) else r
  }

  /**
   * `Request::execute`: connect with the request's configuration, identify, open the
   * message stream, wait for the first private message, ask the bot for the pack,
   * and wait for its offer on the same stream, each within its timer.
   * `trace` is the steps taken; a step that fails ends the request with its error.
   */
  method Execute(info: RequestInfo, nickname: Option<string>, username: Option<string>, session: Session, timers: Timers)
    returns (res: Result<Response, IrcError>, trace: seq<Action>)
    ensures 1 <= |trace| && trace <= Plan(info, nickname, username)
    ensures res.Ok? ==> trace == Plan(info, nickname, username)
    ensures |trace| == 1 <==> session.connect.Err?
    ensures |trace| == 1 ==> res == Err(session.connect.error)
    ensures |trace| == 2 <==> session.connect.Ok? && session.identify.Err?
    ensures |trace| == 2 ==> res == Err(session.identify.error)
    ensures |trace| == 3 <==> session.connect.Ok? && session.identify.Ok? && session.stream.Err?
    ensures |trace| == 3 ==> res == Err(session.stream.error)
    ensures |trace| >= 4 <==> session.connect.Ok? && session.identify.Ok? && session.stream.Ok?
    ensures var (first, cursor) := FirstPrivateMessage(session.incoming, 0);
      var waited := WithTimeout(first, cursor, timers.first);
      && (|trace| >= 4 ==> (|trace| == 4 <==> waited.Err?))
      && (|trace| == 4 ==> res == Err(waited.error))
      && (|trace| >= 5 ==> (|trace| == 5 <==> session.send.Err?))
      && (|trace| == 5 ==> res == Err(session.send.error))
      && (|trace| == 6 ==>
            var (offer, next) := FirstDccOffer(session.incoming, cursor);
            res == WithTimeout(offer, next - cursor, timers.second))
  {
    var plan := Plan(info, nickname, username);
    trace := plan[..1];
    if session.connect.Err? {
      res := Err(session.connect.error);
      return;
    }
    trace := plan[..2];
    if session.identify.Err? {
      res := Err(session.identify.error);
      return;
    }
    trace := plan[..3];
    if session.stream.Err? {
      res := Err(session.stream.error);
      return;
    }
    trace := plan[..4];
    var first, cursor := WaitForFirstPrivateMessage(session.incoming, 0);
    var waited := WithTimeout(first, cursor, timers.first);
    if waited.Err? {
      res := Err(waited.error);
      return;
    }
    trace := plan[..5];
    if session.send.Err? {
      res := Err(session.send.error);
      return;
    }
    trace := plan;
    var offer, next := WaitForDccResponse(session.incoming, cursor);
    res := WithTimeout(offer, next - cursor, timers.second);
  }

  /**
   * A request sends a message only once the first wait has succeeded in time, and then
   * exactly one, to the bot, asking for the pack.
   */
  lemma SendFollowsFirstWait(info: RequestInfo, nickname: Option<string>, username: Option<string>,
                             trace: seq<Action>, i: nat)
    requires trace <= Plan(info, nickname, username) && i < |trace| && trace[i].SendPrivmsg?
    ensures i == 4 && trace[3] == AwaitPrivateMessage
    ensures trace[i] == SendPrivmsg(info.botname, RequestText(info.packnum))
    ensures forall j :: 0 <= j < |trace| && trace[j].SendPrivmsg? ==> j == i
  {
    assert trace[i] == Plan(info, nickname, username)[i];
  }

  /**
   * The two ways a wait fails of its own accord stay apart: a stream that ends before the
   * awaited message is `AsyncChannelClosed`, a timer that elapses first is `PingTimeout`.
   */
  lemma ClosedAndTimedOutDiffer(items: seq<StreamItem>, timer: nat)
    requires forall j :: 0 <= j < |items| ==> items[j].Ok? && !IsPrivmsg(items[j].value)
    ensures var (first, cursor) := FirstPrivateMessage(items, 0);
      WithTimeout(first, cursor, Some(timer)) ==
        if timer < |items| then Err(PingTimeout) else Err(AsyncChannelClosed)
  {
    FirstPrivateMessageClosed(items, 0);
  }

  // ---------------------------------------------------------------------------
  // The wait loops' test streams
  // ---------------------------------------------------------------------------

  /** A `PING` followed by a `PRIVMSG`: the first wait succeeds on the `PRIVMSG`. */
  lemma PingThenPrivmsgExample()
    ensures FirstPrivateMessage(
      [Ok(Message(Ping("", None))), Ok(Message(Privmsg("botname", "hello world")))], 0) == (Ok(()), 2)
  {
    var items: seq<StreamItem> := [Ok(Message(Ping("", None))), Ok(Message(Privmsg("botname", "hello world")))];
    AwaitStopsAt(items, 0, IsPrivmsg, 1);
  }

  /** A lone `PING`: the first wait fails with `AsyncChannelClosed`. */
  lemma PingOnlyExample()
    ensures FirstPrivateMessage([Ok(Message(Ping("", None)))], 0) == (Err(AsyncChannelClosed), 1)
  {
    FirstPrivateMessageClosed([Ok(Message(Ping("", None)))], 0);
  }

  /** A single offer for `ubuntu.iso`: the second wait returns it. */
  lemma UbuntuOfferExample(line: string)
    requires line == DccLine("\"ubuntu.iso\"", "3232235777", "5000", "1048576")
    ensures FirstDccOffer([Ok(Message(Privmsg("botname", line)))], 0)
      == (Ok(Response("ubuntu.iso", Ipv4Addr(192, 168, 1, 1), 5000, 1048576)), 1)
  {
    DecodeUbuntuExample(line);
    AwaitStopsAt([Ok(Message(Privmsg("botname", line)))], 0, IsDccOffer, 0);
  }
}
