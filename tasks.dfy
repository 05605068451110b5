/**
 * The menu notification job: pick the webhooks of the employees of one
 * nationality who ordered from a menu, render the menu once, and post it to
 * every picked webhook, skipping past webhooks that answer "not ok".
 */
module Tasks {
  import opened Wrappers
  import opened Decimal
  import opened Models
  import opened Http
  import opened Exceptions

  /** The nationality notified when the caller names none (Chile). */
  const DefaultIso2Code: string := "CL"

  /** An order of the menu with its employee (and nationality) loaded. */
  datatype LoadedOrder = LoadedOrder(employee: Employee)

  /** The menu as the job reads it: its options and its orders, in table order. */
  datatype LoadedMenu = LoadedMenu(mealOptions: seq<MenuOption>, orders: seq<LoadedOrder>)

  /** Every ordering employee has a nationality (the column is nullable). */
  predicate NationalitiesLoaded(orders: seq<LoadedOrder>) {
    forall i :: 0 <= i < |orders| ==> orders[i].employee.nationality.Some?
  }

  predicate Matches(order: LoadedOrder, iso2Code: string) {
    order.employee.nationality.Some? && order.employee.nationality.value.iso2Code == iso2Code
  }

  // ---------------------------------------------------------------------------
  // Recipient selector

  /** The webhooks of the matching orders, in order; nulls and repeats kept. */
  function SelectedHooks(orders: seq<LoadedOrder>, iso2Code: string): seq<Option<string>> {
    if orders == [] then []
    else
      var last := orders[|orders| - 1];
      SelectedHooks(orders[..|orders| - 1], iso2Code)
      + (if Matches(last, iso2Code) then [last.employee.slackWebHook] else [])
  }

  /** The positions of the matching orders, ascending. */
  function MatchingPositions(orders: seq<LoadedOrder>, iso2Code: string): seq<nat> {
    if orders == [] then []
    else
      MatchingPositions(orders[..|orders| - 1], iso2Code)
      + (if Matches(orders[|orders| - 1], iso2Code) then [|orders| - 1] else [])
  }

  /** MatchingPositions lists every matching position, only those, each once, ascending. */
  lemma {:induction false} MatchingPositionsExact(orders: seq<LoadedOrder>, iso2Code: string)
    ensures var ps := MatchingPositions(orders, iso2Code);
      && (forall k :: 0 <= k < |ps| ==> ps[k] < |orders| && Matches(orders[ps[k]], iso2Code))
      && (forall k, l :: 0 <= k < l < |ps| ==> ps[k] < ps[l])
      && (forall i :: 0 <= i < |orders| && Matches(orders[i], iso2Code) ==> i in ps)
  {
    if orders != [] {
      var init := orders[..|orders| - 1];
      MatchingPositionsExact(init, iso2Code);
      var ps := MatchingPositions(orders, iso2Code);
      var qs := MatchingPositions(init, iso2Code);
      forall i | 0 <= i < |orders| && Matches(orders[i], iso2Code)
        ensures i in ps
      {
        if i < |orders| - 1 {
          assert init[i] == orders[i];
          assert i in qs;
        } else {
          assert ps[|ps| - 1] == i;
        }
      }
    }
  }

  /** The selector returns, position by position, the webhook of each matching order. */
  lemma {:induction false} SelectedHooksFollowMatchingOrders(orders: seq<LoadedOrder>, iso2Code: string)
    ensures var hooks := SelectedHooks(orders, iso2Code);
      var ps := MatchingPositions(orders, iso2Code);
      && |hooks| == |ps|
      && forall k :: 0 <= k < |ps| ==> ps[k] < |orders| && hooks[k] == orders[ps[k]].employee.slackWebHook
  {
    if orders != [] {
      var init := orders[..|orders| - 1];
      SelectedHooksFollowMatchingOrders(init, iso2Code);
      MatchingPositionsExact(init, iso2Code);
      var ps := MatchingPositions(init, iso2Code);
      forall k | 0 <= k < |ps| ensures init[ps[k]] == orders[ps[k]] { }
    }
  }

  /** No more webhooks than orders, and none exactly when no order matches. */
  lemma {:induction false} SelectedHooksBounds(orders: seq<LoadedOrder>, iso2Code: string)
    ensures |SelectedHooks(orders, iso2Code)| <= |orders|
    ensures SelectedHooks(orders, iso2Code) == [] <==>
              forall i :: 0 <= i < |orders| ==> !Matches(orders[i], iso2Code)
  {
    if orders != [] {
      var init := orders[..|orders| - 1];
      SelectedHooksBounds(init, iso2Code);
      if !Matches(orders[|orders| - 1], iso2Code) {
        forall i | 0 <= i < |orders| - 1 ensures init[i] == orders[i] { }
      }
    }
  }

  /** When every order matches, every order contributes its webhook: repeats are not removed. */
  lemma {:induction false} SelectedHooksKeepRepeats(orders: seq<LoadedOrder>, iso2Code: string)
    requires forall i :: 0 <= i < |orders| ==> Matches(orders[i], iso2Code)
    ensures |SelectedHooks(orders, iso2Code)| == |orders|
    ensures forall i :: 0 <= i < |orders| ==> SelectedHooks(orders, iso2Code)[i] == orders[i].employee.slackWebHook
  {
    if orders != [] {
      var init := orders[..|orders| - 1];
      SelectedHooksKeepRepeats(init, iso2Code);
    }
  }

  /** What the selector yields: the picked webhooks, or None when some ordering employee
      has no nationality, which the selector dereferences unchecked and so raises on. */
  function Selection(orders: seq<LoadedOrder>, iso2Code: string): Option<seq<Option<string>>> {
    if NationalitiesLoaded(orders) then Some(SelectedHooks(orders, iso2Code)) else None
  }

  method GetEmployeesSlackWebHooks(menu: LoadedMenu, iso2Code: string) returns (hooks: Option<seq<Option<string>>>)
    ensures hooks == Selection(menu.orders, iso2Code)
  {
    var picked := [];
    for i := 0 to |menu.orders|
      invariant NationalitiesLoaded(menu.orders[..i])
      invariant picked == SelectedHooks(menu.orders[..i], iso2Code)
    {
      var order := menu.orders[i];
      if order.employee.nationality.None? {
        return None;
      }
      if order.employee.nationality.value.iso2Code == iso2Code {
        picked := picked + [order.employee.slackWebHook];
      }
      assert menu.orders[..i + 1][..i] == menu.orders[..i];
    }
    assert menu.orders[..|menu.orders|] == menu.orders;
    return Some(picked);
  }

  // ---------------------------------------------------------------------------
  // Message renderer

  const Greeting: string := "Hello!\nI share with you today's menu :)\n\n"
  const Closing: string := "\nHave a nice day!"

  /** The line of the option shown in position `idx` (counted from 1). */
  function OptionLine(idx: nat, description: string): string {
    "Option " + NatToString(idx) + ": " + description + "\n"
  }

  predicate SortedByOptionNumber(options: seq<MenuOption>) {
    forall i, j :: 0 <= i < j < |options| ==> options[i].optionNumber <= options[j].optionNumber
  }

  /** Puts `option` before the first option whose number is not smaller. */
  function InsertByOptionNumber(option: MenuOption, sorted: seq<MenuOption>): (r: seq<MenuOption>)
    requires SortedByOptionNumber(sorted)
    ensures SortedByOptionNumber(r)
    ensures multiset(r) == multiset(sorted) + multiset{option}
    ensures |r| == |sorted| + 1
  {
    if sorted == [] || option.optionNumber <= sorted[0].optionNumber then
      [option] + sorted
    else
      var tail := InsertByOptionNumber(option, sorted[1..]);
      HeadStaysFirst(sorted, option, tail);
      [sorted[0]] + tail
  }

  /** Inserting past the head of a sorted list keeps the head in front: it is not
      greater than anything inserted behind it. */
  lemma HeadStaysFirst(sorted: seq<MenuOption>, option: MenuOption, tail: seq<MenuOption>)
    requires sorted != [] && SortedByOptionNumber(sorted)
    requires sorted[0].optionNumber < option.optionNumber
    requires SortedByOptionNumber(tail)
    requires multiset(tail) == multiset(sorted[1..]) + multiset{option}
    ensures SortedByOptionNumber([sorted[0]] + tail)
    ensures multiset([sorted[0]] + tail) == multiset(sorted) + multiset{option}
  {
    assert sorted == [sorted[0]] + sorted[1..];
    forall k | 0 <= k < |tail| ensures sorted[0].optionNumber <= tail[k].optionNumber {
      assert tail[k] in multiset(tail);
      if tail[k] != option {
        assert tail[k] in multiset(sorted[1..]);
        var j :| 0 <= j < |sorted[1..]| && sorted[1..][j] == tail[k];
        assert sorted[1..][j] == sorted[j + 1];
      }
    }
  }

  /** The options ordered by `option_number`: sorted, and each option exactly once. */
  function SortByOptionNumber(options: seq<MenuOption>): (r: seq<MenuOption>)
    ensures SortedByOptionNumber(r)
    ensures multiset(r) == multiset(options)
    ensures |r| == |options|
  {
    if options == [] then []
    else
      assert options == [options[0]] + options[1..];
      InsertByOptionNumber(options[0], SortByOptionNumber(options[1..]))
  }

  /** The option lines, numbered by position from 1. */
  function OptionLines(options: seq<MenuOption>): string {
    if options == [] then ""
    else OptionLines(options[..|options| - 1]) + OptionLine(|options|, options[|options| - 1].description)
  }

  /** The message the job sends for a menu with these options. */
  function MenuMessage(options: seq<MenuOption>): string {
    Greeting + OptionLines(SortByOptionNumber(options)) + Closing
  }

  /** The lines of a prefix of the options are a prefix of all the lines. */
  lemma {:induction false} OptionLinesPrefix(options: seq<MenuOption>, k: nat)
    requires k <= |options|
    ensures |OptionLines(options[..k])| <= |OptionLines(options)|
    ensures OptionLines(options)[..|OptionLines(options[..k])|] == OptionLines(options[..k])
    decreases |options| - k
  {
    if k < |options| {
      var init := options[..|options| - 1];
      assert init[..k] == options[..k];
      OptionLinesPrefix(init, k);
    } else {
      assert options[..k] == options;
    }
  }

  /** The lines depend on the descriptions only: stored numbers never show. */
  lemma {:induction false} OptionLinesShowDescriptionsOnly(a: seq<MenuOption>, b: seq<MenuOption>)
    requires |a| == |b|
    requires forall i :: 0 <= i < |a| ==> a[i].description == b[i].description
    ensures OptionLines(a) == OptionLines(b)
  {
    if a != [] {
      OptionLinesShowDescriptionsOnly(a[..|a| - 1], b[..|b| - 1]);
    }
  }

  /** The option in sorted position `k` is shown, numbered `k + 1`, right after the lines before it. */
  lemma MenuMessageShowsOption(options: seq<MenuOption>, k: nat)
    requires k < |options|
    ensures var sorted := SortByOptionNumber(options);
      var m := MenuMessage(options);
      var at := |Greeting| + |OptionLines(sorted[..k])|;
      var line := OptionLine(k + 1, sorted[k].description);
      && |sorted| == |options|
      && at + |line| <= |m|
      && m[at..at + |line|] == line
  {
    var sorted := SortByOptionNumber(options);
    OptionLinesShowLine(sorted, k);
    LineInsideFrame(Greeting, OptionLines(sorted), Closing, OptionLines(sorted[..k]),
                    OptionLine(k + 1, sorted[k].description));
  }

  /** The lines of the options start with the lines before position `k` followed by the line of option `k`. */
  lemma OptionLinesShowLine(options: seq<MenuOption>, k: nat)
    requires k < |options|
    ensures var line := OptionLine(k + 1, options[k].description);
      && |OptionLines(options[..k])| + |line| <= |OptionLines(options)|
      && OptionLines(options)[..|OptionLines(options[..k])| + |line|] == OptionLines(options[..k]) + line
  {
    var upto := options[..k + 1];
    assert upto[..k] == options[..k];
    OptionLinesPrefix(options, k + 1);
    assert OptionLines(upto) == OptionLines(options[..k]) + OptionLine(k + 1, options[k].description);
  }

  lemma LineInsideFrame(head: string, lines: string, tail: string, before: string, line: string)
    requires |before| + |line| <= |lines|
    requires lines[..|before| + |line|] == before + line
    ensures var m := head + lines + tail;
      && |head| + |before| + |line| <= |m|
      && m[|head| + |before|..|head| + |before| + |line|] == line
  {
    var m := head + lines + tail;
    forall i | 0 <= i < |line|
      ensures m[|head| + |before| + i] == line[i]
    {
      assert m[|head| + |before| + i] == lines[|before| + i];
      assert lines[..|before| + |line|][|before| + i] == (before + line)[|before| + i];
    }
  }

  /** With no options the greeting and closing frame an empty block. */
  lemma MenuMessageWithoutOptions()
    ensures MenuMessage([]) == "Hello!\nI share with you today's menu :)\n\n\nHave a nice day!"
  {
  }

  /** Two options out of number order come out swapped. */
  lemma SortSwapsTwo(first: MenuOption, second: MenuOption)
    requires second.optionNumber < first.optionNumber
    ensures SortByOptionNumber([first, second]) == [second, first]
  {
    assert [first, second][1..] == [second];
    assert SortByOptionNumber([second]) == [second] by {
      assert [second][1..] == [];
    }
  }

  lemma OptionLinesOfTwo(first: MenuOption, second: MenuOption)
    ensures OptionLines([first, second]) == OptionLine(1, first.description) + OptionLine(2, second.description)
  {
    var both := [first, second];
    assert both[..1] == [first] && [first][..0] == [];
    assert OptionLines([first]) == OptionLines([]) + OptionLine(1, first.description);
    assert OptionLines(both) == OptionLines([first]) + OptionLine(2, second.description);
  }

  /** Options stored as 5 and 2 are shown as "Option 1" and "Option 2", in number order. */
  lemma MenuMessageRenumbers(menu: Uuid)
    ensures MenuMessage([MenuOption(menu, "Soup", 5), MenuOption(menu, "Salad", 2)])
         == Greeting + OptionLine(1, "Salad") + OptionLine(2, "Soup") + Closing
  {
    var salad, soup := MenuOption(menu, "Salad", 2), MenuOption(menu, "Soup", 5);
    SortSwapsTwo(soup, salad);
    OptionLinesOfTwo(salad, soup);
  }

  method GenerateMenuMessage(menu: LoadedMenu) returns (menuMessage: string)
    ensures menuMessage == MenuMessage(menu.mealOptions)
  {
    var menuMealOptions := "";
    var queryset := SortByOptionNumber(menu.mealOptions);
    for idx := 1 to |queryset| + 1
      invariant menuMealOptions == OptionLines(queryset[..idx - 1])
    {
      menuMealOptions := menuMealOptions + OptionLine(idx, queryset[idx - 1].description);
      assert queryset[..idx][..idx - 1] == queryset[..idx - 1];
    }
    assert queryset[..|queryset|] == queryset;
    menuMessage := Greeting + menuMealOptions + Closing;
  }

  // ---------------------------------------------------------------------------
  // Dispatcher

  const JsonContentType: Headers := [("Content-type", "application/json")]

  /** The request posted to one webhook: the JSON header and `{'text': message}`. */
  function SlackRequest(webHookUrl: Option<string>, menuMessage: string): PreparedRequest {
    PreparedRequest(webHookUrl, JsonContentType, Payload(menuMessage))
  }

  datatype SendOutcome =
    | Sent
    | SlackFailed(exception: SlackMessageException)
    | SendRaised(error: string)

  /** `outcome` is what posting gets for the post's result `reply`. */
  predicate Answers(outcome: SendOutcome, reply: PostResult) {
    match reply
    case Raised(e) => outcome == SendRaised(e)
    case Responded(response) =>
      if response.Ok() then outcome == Sent
      else outcome.SlackFailed? && outcome.exception.Describes(response)
  }

  method SendSlackMessage(menuMessage: string, webHookUrl: Option<string>, client: WebhookClient)
    returns (outcome: SendOutcome)
    modifies client
    ensures client.posted == old(client.posted) + [SlackRequest(webHookUrl, menuMessage)]
    ensures Answers(outcome, client.respond(|old(client.posted)|, SlackRequest(webHookUrl, menuMessage)))
  {
    var headers := JsonContentType;
    var payload := Payload(menuMessage);
    var reply := client.Post(PreparedRequest(webHookUrl, headers, payload));
    match reply
    case Raised(e) =>
      outcome := SendRaised(e);
    case Responded(response) =>
      if !response.Ok() {
        var exception := new SlackMessageException(response);
        outcome := SlackFailed(exception);
      } else {
        outcome := Sent;
      }
  }

  // ---------------------------------------------------------------------------
  // Orchestrator

  /** What a run of the dispatch loop did: the requests posted, the responses
      rejected as not ok (in order), and the error that stopped it, if any. */
  datatype Delivery = Delivery(sent: seq<PreparedRequest>, rejected: seq<Response>, raised: Option<string>)

  /** What the post to `hooks[i]` gets, as the `base + i`-th post of the client. */
  function Reply(respond: Responder, base: nat, hooks: seq<Option<string>>, menuMessage: string, i: nat): PostResult
    requires i < |hooks|
  {
    respond(base + i, SlackRequest(hooks[i], menuMessage))
  }

  /** The dispatch loop over `hooks`, starting as the `base`-th post. */
  function Deliver(respond: Responder, base: nat, hooks: seq<Option<string>>, menuMessage: string): Delivery
    decreases |hooks|
  {
    if hooks == [] then Delivery([], [], None)
    else
      var request := SlackRequest(hooks[0], menuMessage);
      match respond(base, request)
      case Raised(e) => Delivery([request], [], Some(e))
      case Responded(response) =>
        var rest := Deliver(respond, base + 1, hooks[1..], menuMessage);
        Delivery([request] + rest.sent, (if response.Ok() then [] else [response]) + rest.rejected, rest.raised)
  }

  /** Posts go to the selected webhooks in selector order, each once, all with the
      same message, and all of them are tried unless a post raised. */
  lemma {:induction false} DeliverPostsInOrder(respond: Responder, base: nat, hooks: seq<Option<string>>, menuMessage: string)
    ensures var d := Deliver(respond, base, hooks, menuMessage);
      && |d.sent| <= |hooks|
      && (forall i :: 0 <= i < |d.sent| ==> d.sent[i] == SlackRequest(hooks[i], menuMessage))
      && (d.raised.None? ==> |d.sent| == |hooks|)
    decreases |hooks|
  {
    if hooks != [] {
      DeliverPostsInOrder(respond, base + 1, hooks[1..], menuMessage);
    }
  }

  /** The loop stops early exactly when some post raises; otherwise every webhook is
      posted once, in order, with the same message, rejections notwithstanding. */
  lemma {:induction false} DeliverStopsOnlyOnRaise(respond: Responder, base: nat, hooks: seq<Option<string>>, menuMessage: string)
    ensures var d := Deliver(respond, base, hooks, menuMessage);
      d.raised.None? <==> forall i :: 0 <= i < |hooks| ==> Reply(respond, base, hooks, menuMessage, i).Responded?
    decreases |hooks|
  {
    if hooks != [] {
      var next, tail := base + 1, hooks[1..];
      DeliverStopsOnlyOnRaise(respond, next, tail, menuMessage);
      ReplyShift(respond, base, hooks, menuMessage, next, tail);
    }
  }

  /** Posting to `hooks[i + 1]` from `base` is posting to `tail[i]` from `next`. */
  lemma ReplyShift(respond: Responder, base: nat, hooks: seq<Option<string>>, menuMessage: string, next: nat, tail: seq<Option<string>>)
    requires hooks != [] && next == base + 1 && tail == hooks[1..]
    ensures Reply(respond, base, hooks, menuMessage, 0) == respond(base, SlackRequest(hooks[0], menuMessage))
    ensures forall i :: 1 <= i < |hooks| ==>
      Reply(respond, base, hooks, menuMessage, i) == Reply(respond, next, tail, menuMessage, i - 1)
    ensures forall j :: 0 <= j < |tail| ==>
      Reply(respond, next, tail, menuMessage, j) == Reply(respond, base, hooks, menuMessage, j + 1)
  {
  }

  /** One turn of the dispatch loop, seen from position `i`. */
  lemma DeliverUnfold(respond: Responder, at: nat, hooks: seq<Option<string>>, menuMessage: string, i: nat)
    requires i < |hooks|
    ensures var rest := Deliver(respond, at, hooks[i..], menuMessage);
      var request := SlackRequest(hooks[i], menuMessage);
      var later := Deliver(respond, at + 1, hooks[i + 1..], menuMessage);
      match respond(at, request)
      case Raised(e) => rest == Delivery([request], [], Some(e))
      case Responded(response) =>
        rest == Delivery([request] + later.sent, (if response.Ok() then [] else [response]) + later.rejected, later.raised)
  {
    assert hooks[i..][0] == hooks[i] && hooks[i..][1..] == hooks[i + 1..];
  }

  /** A post that raises ends the loop right there: the webhooks after it are not tried. */
  lemma {:induction false} DeliverEndsAtFirstRaise(respond: Responder, base: nat, hooks: seq<Option<string>>, menuMessage: string, j: nat)
    requires j < |hooks|
    requires Reply(respond, base, hooks, menuMessage, j).Raised?
    requires forall i :: 0 <= i < j ==> Reply(respond, base, hooks, menuMessage, i).Responded?
    ensures var d := Deliver(respond, base, hooks, menuMessage);
      |d.sent| == j + 1 && d.raised == Some(Reply(respond, base, hooks, menuMessage, j).error)
    decreases |hooks|
  {
    assert Reply(respond, base, hooks, menuMessage, 0) == respond(base, SlackRequest(hooks[0], menuMessage));
    if j > 0 {
      var next, tail := base + 1, hooks[1..];
      forall i | 0 <= i < j - 1
        ensures Reply(respond, next, tail, menuMessage, i).Responded?
      {
        assert Reply(respond, base, hooks, menuMessage, i + 1) == Reply(respond, next, tail, menuMessage, i);
      }
      assert Reply(respond, base, hooks, menuMessage, j) == Reply(respond, next, tail, menuMessage, j - 1);
      DeliverEndsAtFirstRaise(respond, next, tail, menuMessage, j - 1);
    }
  }

  /** The selector keeps null webhooks, and posting to a null address raises an error the
      job does not catch: the first selected employee without a webhook is the last one
      posted to, and the employees after them get nothing. */
  lemma NullWebHookEndsDelivery(respond: Responder, base: nat, hooks: seq<Option<string>>, menuMessage: string, j: nat)
    requires NullUrlRaises(respond)
    requires j < |hooks| && hooks[j].None?
    requires forall i :: 0 <= i < j ==> Reply(respond, base, hooks, menuMessage, i).Responded?
    ensures var d := Deliver(respond, base, hooks, menuMessage);
      |d.sent| == j + 1 && d.raised.Some?
  {
    assert SlackRequest(hooks[j], menuMessage).url.None?;
    DeliverEndsAtFirstRaise(respond, base, hooks, menuMessage, j);
  }

  /** The rejected responses are exactly the not-ok answers to the posts made. */
  lemma {:induction false} DeliverRejectsExactlyNotOk(respond: Responder, base: nat, hooks: seq<Option<string>>, menuMessage: string, r: Response)
    ensures var d := Deliver(respond, base, hooks, menuMessage);
      r in d.rejected <==>
        !r.Ok() && exists i :: 0 <= i < |d.sent| && i < |hooks| && Reply(respond, base, hooks, menuMessage, i) == Responded(r)
    decreases |hooks|
  {
    if hooks != [] {
      var d := Deliver(respond, base, hooks, menuMessage);
      var request := SlackRequest(hooks[0], menuMessage);
      var next, tail := base + 1, hooks[1..];
      ReplyShift(respond, base, hooks, menuMessage, next, tail);
      match respond(base, request)
      case Raised(e) =>
      case Responded(response) =>
        var rest := Deliver(respond, next, tail, menuMessage);
        DeliverRejectsExactlyNotOk(respond, next, tail, menuMessage, r);
        assert d.sent == [request] + rest.sent;
        assert d.rejected == (if response.Ok() then [] else [response]) + rest.rejected;
        if r in d.rejected {
          if r in rest.rejected {
            var i :| 0 <= i < |rest.sent| && i < |tail| && Reply(respond, next, tail, menuMessage, i) == Responded(r);
            assert Reply(respond, base, hooks, menuMessage, i + 1) == Responded(r);
          } else {
            assert Reply(respond, base, hooks, menuMessage, 0) == Responded(r);
          }
        } else if !r.Ok() {
          forall i | 0 <= i < |d.sent| && i < |hooks|
            ensures Reply(respond, base, hooks, menuMessage, i) != Responded(r)
          {
          }
        }
    }
  }

  lemma ConcatAssociates<T>(a: seq<T>, b: seq<T>, c: seq<T>)
    ensures a + (b + c) == (a + b) + c
  {
  }

  /** Each logged failure describes the rejected response at the same position. */
  predicate LogDescribes(logged: seq<SlackMessageException>, rejected: seq<Response>) {
    && |logged| == |rejected|
    && forall k :: 0 <= k < |logged| ==> logged[k].Describes(rejected[k])
  }

  /** Logging the failure raised for a rejected response keeps the log in step. */
  lemma LogStep(logged: seq<SlackMessageException>, rejected: seq<Response>, e: SlackMessageException, r: Response)
    requires LogDescribes(logged, rejected) && e.Describes(r)
    ensures LogDescribes(logged + [e], rejected + [r])
  {
    forall k | 0 <= k < |logged| + 1
      ensures (logged + [e])[k].Describes((rejected + [r])[k])
    {
      if k < |logged| {
        assert (logged + [e])[k] == logged[k] && (rejected + [r])[k] == rejected[k];
      }
    }
  }

  /** The dispatch loop's invariant at position `i`: what is done (`sent`, `rejected`)
      followed by what the run from `i` does is the whole run. */
  ghost predicate RunSoFar(whole: Delivery, respond: Responder, base: nat, hooks: seq<Option<string>>,
                           menuMessage: string, i: nat, sent: seq<PreparedRequest>, rejected: seq<Response>)
  {
    && i <= |hooks|
    && var rest := Deliver(respond, base + i, hooks[i..], menuMessage);
       whole == Delivery(sent + rest.sent, rejected + rest.rejected, rest.raised)
  }

  /** A post that gets a response keeps the invariant one position further on. */
  lemma RunContinues(whole: Delivery, respond: Responder, base: nat, hooks: seq<Option<string>>, menuMessage: string,
                     i: nat, sent: seq<PreparedRequest>, rejected: seq<Response>)
    requires i < |hooks| && RunSoFar(whole, respond, base, hooks, menuMessage, i, sent, rejected)
    requires respond(base + i, SlackRequest(hooks[i], menuMessage)).Responded?
    ensures var response := respond(base + i, SlackRequest(hooks[i], menuMessage)).response;
      RunSoFar(whole, respond, base, hooks, menuMessage, i + 1, sent + [SlackRequest(hooks[i], menuMessage)],
               if response.Ok() then rejected else rejected + [response])
  {
    var request := SlackRequest(hooks[i], menuMessage);
    var response := respond(base + i, request).response;
    var later := Deliver(respond, base + i + 1, hooks[i + 1..], menuMessage);
    DeliverUnfold(respond, base + i, hooks, menuMessage, i);
    ConcatAssociates(sent, [request], later.sent);
    if response.Ok() {
      assert rejected + ([] + later.rejected) == rejected + later.rejected;
    } else {
      ConcatAssociates(rejected, [response], later.rejected);
    }
  }

  /** A post that raises ends the run: it is the last post, and its error is the run's. */
  lemma RunStops(whole: Delivery, respond: Responder, base: nat, hooks: seq<Option<string>>, menuMessage: string,
                 i: nat, sent: seq<PreparedRequest>, rejected: seq<Response>)
    requires i < |hooks| && RunSoFar(whole, respond, base, hooks, menuMessage, i, sent, rejected)
    requires respond(base + i, SlackRequest(hooks[i], menuMessage)).Raised?
    ensures whole == Delivery(sent + [SlackRequest(hooks[i], menuMessage)], rejected,
                              Some(respond(base + i, SlackRequest(hooks[i], menuMessage)).error))
  {
    DeliverUnfold(respond, base + i, hooks, menuMessage, i);
    assert rejected + [] == rejected;
  }

  /** Why the job ended early: the menu lookup failed, an ordering employee had no
      nationality, or a post raised. */
  datatype JobFailure = MenuDoesNotExist | NationalityMissing | PostRaised(error: string)

  /** The job's dispatch loop: post `menuMessage` to each webhook in turn, log the
      rejections and go on, stop at the first post that raises. */
  method PostToEachWebHook(employeesSlackWebHooks: seq<Option<string>>, menuMessage: string, client: WebhookClient)
    returns (failure: Option<JobFailure>, logged: seq<SlackMessageException>)
    modifies client
    ensures var d := Deliver(client.respond, |old(client.posted)|, employeesSlackWebHooks, menuMessage);
      && client.posted == old(client.posted) + d.sent
      && failure == (if d.raised.Some? then Some(PostRaised(d.raised.value)) else None)
      && LogDescribes(logged, d.rejected)
  {
    ghost var base := |client.posted|;
    ghost var whole := Deliver(client.respond, base, employeesSlackWebHooks, menuMessage);
    ghost var sent: seq<PreparedRequest> := [];
    ghost var rejected: seq<Response> := [];
    failure, logged := None, [];
    var i := 0;
    while i < |employeesSlackWebHooks|
      invariant failure == None
      invariant |sent| == i
      invariant client.posted == old(client.posted) + sent
      invariant LogDescribes(logged, rejected)
      invariant RunSoFar(whole, client.respond, base, employeesSlackWebHooks, menuMessage, i, sent, rejected)
      decreases |employeesSlackWebHooks| - i
    {
      var webHookUrl := employeesSlackWebHooks[i];
      ghost var request := SlackRequest(webHookUrl, menuMessage);
      ghost var reply := client.respond(base + i, request);
      var outcome := SendSlackMessage(menuMessage, webHookUrl, client);
      if outcome.SendRaised? {
        RunStops(whole, client.respond, base, employeesSlackWebHooks, menuMessage, i, sent, rejected);
        ConcatAssociates(old(client.posted), sent, [request]);
        sent := sent + [request];
        failure := Some(PostRaised(outcome.error));
        return;
      }
      RunContinues(whole, client.respond, base, employeesSlackWebHooks, menuMessage, i, sent, rejected);
      ConcatAssociates(old(client.posted), sent, [request]);
      sent := sent + [request];
      if outcome.SlackFailed? {
        LogStep(logged, rejected, outcome.exception, reply.response);
        logged := logged + [outcome.exception];
        rejected := rejected + [reply.response];
      }
      i := i + 1;
    }
    assert employeesSlackWebHooks[i..] == [];
  }

  method SendMenuNotificationBySlack(
    menus: map<nat, LoadedMenu>, menuId: nat, client: WebhookClient, iso2Code: string := DefaultIso2Code)
    returns (failure: Option<JobFailure>, logged: seq<SlackMessageException>)
    modifies client
    ensures menuId !in menus ==>
      failure == Some(MenuDoesNotExist) && logged == [] && client.posted == old(client.posted)
    ensures menuId in menus && !NationalitiesLoaded(menus[menuId].orders) ==>
      failure == Some(NationalityMissing) && logged == [] && client.posted == old(client.posted)
    ensures menuId in menus && NationalitiesLoaded(menus[menuId].orders) ==>
      var d := Deliver(client.respond, |old(client.posted)|,
                       SelectedHooks(menus[menuId].orders, iso2Code), MenuMessage(menus[menuId].mealOptions));
      && client.posted == old(client.posted) + d.sent
      && failure == (if d.raised.Some? then Some(PostRaised(d.raised.value)) else None)
      && |logged| == |d.rejected|
      && forall k :: 0 <= k < |logged| ==> logged[k].Describes(d.rejected[k])
  {
    if menuId !in menus {
      return Some(MenuDoesNotExist), [];
    }
    var menu := menus[menuId];
    var employeesSlackWebHooks := GetEmployeesSlackWebHooks(menu, iso2Code);
    if employeesSlackWebHooks.None? {
      return Some(NationalityMissing), [];
    }
    var menuMessage := GenerateMenuMessage(menu);
    failure, logged := PostToEachWebHook(employeesSlackWebHooks.value, menuMessage, client);
  }
}
