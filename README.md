# Meal ordering backend: notification job and order/menu actions in Dafny

This project models the core of a small meal-ordering backend. Administrators
publish a daily menu of meal options. Employees place at most one order per
menu, up to 11:00. A background job sends the menu over Slack webhooks to the
employees of one nationality who ordered from it.

The model covers four parts:

- **The notification job** (`tasks.dfy`, module `Tasks`), in four pieces:
  - The recipient selector picks the webhooks of matching orders, in order, keeping nulls and repeats.
  - The menu renderer sorts the options by `option_number` and numbers them from 1 by position.
  - The dispatcher posts one JSON message and turns a not-ok response into a failure.
  - The job runs the pieces in sequence. It logs each rejected post and goes on, and it stops at the first post that raises.
- **The delivery failure** (`exceptions.dfy`, module `Exceptions`).
  - It is a class holding the status code, the requested params (address, headers, body) and a message.
  - The message falls back to a default text when the given one is missing or empty.
- **The order endpoints** (`order_viewset.dfy`, module `OrderViewSet`).
  - `create` checks the menu, then a duplicate order, then the 11:00 cut-off.
  - The visible-orders query returns every order to a superuser and only their own to anyone else.
- **The menu endpoints** (`menu_viewset.dfy`, module `MenuViewSet`).
  - `publish` publishes a menu only when it has meal options.
  - `orders` lists a menu's orders, or answers 404 when it has none.

Supporting modules:

| module | file | what it holds |
|---|---|---|
| `Models` | `models.dfy` | the entities and a mutable `Database` class over the tables |
| `Http` | `http.dfy` | the request and response records, and a `WebhookClient` |
| `Decimal` | `decimal.dfy` | decimal rendering of naturals, with its read-back |
| `Seqs` | `seqs.dfy` | the order-preserving filter behind ORM `filter(...)` |
| `Wrappers` | `wrappers.dfy` | `Option` |

How state and effects are modelled:

- The state-changing operations are methods over the `Database` class, proved against a pure specification of the same step:
  - `OrderViewSet.Create` against `OrderViewSet.CreateOrder`;
  - `MenuViewSet.Publish` against `MenuViewSet.PublishMenu`.
- The network is an oracle. `WebhookClient.respond` decides what the n-th post gets back: a response, or an error the HTTP library raises. The client records every request it posts.
- The job's loop is proved against a recursive reference definition, `Tasks.Deliver`.

A post counts as delivered when the HTTP library's `ok` holds, that is, when
the status is not in 400–599, so a 3xx answer counts as delivered
(`Http.OkMeansBelow400`).

The selector keeps null webhooks, and the HTTP library raises, rather than
answering, when asked to post to no URL. That error is not the delivery failure
the job catches. So the first selected employee without a webhook ends the
delivery, and the employees after them get nothing
(`Tasks.NullWebHookEndsDelivery`, under the assumption `Http.NullUrlRaises`).

## Model

| member | source | states |
|---|---|---|
| Tasks.GetEmployeesSlackWebHooks | backend_test/tasks.py:14-26 | the loop yields exactly the selector's reference result: the matching orders' webhooks in order, or none when an ordering employee has no nationality (the unchecked dereference raises) |
| Tasks.MatchingPositionsExact | backend_test/tasks.py:22-24 | the matching positions are ascending, each matches the nationality, and every matching order is among them |
| Tasks.SelectedHooksFollowMatchingOrders | backend_test/tasks.py:20-26 | the k-th selected webhook is the webhook of the k-th matching order, with null webhooks kept |
| Tasks.SelectedHooksBounds | backend_test/tasks.py:20-26 | never more webhooks than orders; an empty result exactly when no order's employee has the nationality |
| Tasks.SelectedHooksKeepRepeats | backend_test/tasks.py:22-24 | when every order matches, every order contributes its webhook, repeats included |
| Tasks.InsertByOptionNumber | backend_test/tasks.py:33 | inserting into an option list sorted by number keeps it sorted and adds exactly that option |
| Tasks.SortByOptionNumber | backend_test/tasks.py:33 | the options ordered by `option_number`: sorted, and a permutation of the menu's options |
| Tasks.OptionLinesPrefix | backend_test/tasks.py:35-38 | the text built for the first k options is a prefix of the whole list's text (lines are only appended) |
| Tasks.OptionLinesShowDescriptionsOnly | backend_test/tasks.py:35-38 | the lines depend only on the descriptions and their positions, not on the stored option numbers |
| Tasks.MenuMessageShowsOption | backend_test/tasks.py:33-45 | the k-th option in sorted order appears in the message as the line "Option k+1: description", at its place after the greeting |
| Tasks.MenuMessageWithoutOptions | backend_test/tasks.py:40-45 | a menu without options still gets the greeting, an empty line and the closing |
| Tasks.SortSwapsTwo | backend_test/tasks.py:33 | two options stored out of number order come out swapped |
| Tasks.OptionLinesOfTwo | backend_test/tasks.py:35-38 | two options give the lines "Option 1" and "Option 2", in that order |
| Tasks.MenuMessageRenumbers | backend_test/tasks.py:29-47 | options stored as 5 "Soup" and 2 "Salad" are shown as "Option 1: Salad" then "Option 2: Soup": positions, not stored numbers |
| Tasks.GenerateMenuMessage | backend_test/tasks.py:29-47 | the loop builds exactly the reference message for the menu's options |
| Tasks.SendSlackMessage | backend_test/tasks.py:50-65 | exactly one request is posted: the JSON content-type header and the `{'text': message}` body, to the given address; a not-ok response becomes a failure describing that response, an ok one is success, and a raised error passes through |
| Tasks.DeliverPostsInOrder | backend_test/tasks.py:83-88 | posts go to the selected webhooks in order, one each, all with the same message; when nothing raises, every webhook gets its post |
| Tasks.DeliverStopsOnlyOnRaise | backend_test/tasks.py:83-97 | the loop ends early exactly when some post raises; a rejected post never stops it |
| Tasks.DeliverEndsAtFirstRaise | backend_test/tasks.py:83-97 | the first post that raises is the last one made, and its error is the job's error |
| Tasks.DeliverRejectsExactlyNotOk | backend_test/tasks.py:64-65 | a response is logged as rejected exactly when it answers one of the posts made and is not ok |
| Tasks.RunContinues | backend_test/tasks.py:83-97 | a post that gets any response, ok or not, lets the loop go on to the next webhook; a not-ok response is added to the rejected ones |
| Tasks.RunStops | backend_test/tasks.py:83-97 | a post that raises is the last post of the run, and its error is the run's error |
| Tasks.LogStep | backend_test/tasks.py:89-97 | logging the failure raised for a rejected response keeps every logged failure paired with its rejected response |
| Tasks.NullWebHookEndsDelivery | backend_test/tasks.py:58-97 | when posting to no URL raises, the first selected null webhook is the last one posted to and the run ends with an error |
| Tasks.PostToEachWebHook | backend_test/tasks.py:83-97 | the loop posts what the reference delivery posts, logs one failure describing each rejected response in order, and reports the error of a post that raised |
| Tasks.SendMenuNotificationBySlack | backend_test/tasks.py:68-97 | a missing menu or an employee without a nationality ends the job before any post; otherwise the job delivers the rendered menu to the selected webhooks as the reference delivery does |
| Http.WebhookClient.Post | backend_test/tasks.py:58-62 | a post records the request and returns what the remote side answers to the n-th post |
| Http.OkMeansBelow400 | backend_test/tasks.py:64 | for every status below 600, `ok` holds exactly when the status is below 400 |
| Exceptions.SlackMessageException.constructor | backend_test/exceptions.py:6-14 | the failure keeps the response's status code and the request's address, headers and body, and its message is the given one when non-empty, otherwise the default text |
| Exceptions.StoredMessage | backend_test/exceptions.py:13 | the stored message is never empty, and it is the given message exactly when that one is truthy |
| Exceptions.DefaultMessageMentionsStatusAndParams | backend_test/exceptions.py:16-21 | the default text opens with the fixed "not sent" phrase, the status code reads back from the digits after it, and it ends with the requested params |
| Decimal.NatToStringRoundTrip | backend_test/exceptions.py:19 | the decimal text of a status code or position reads back as the same number |
| OrderViewSet.Create | meal_api/views/order_viewset.py:33-77 | the view's answer and the new tables are those of the reference create |
| OrderViewSet.RefusedCreateChangesNothing | meal_api/views/order_viewset.py:37-64 | a refused create answers 404 or 400 and leaves every table as it was |
| OrderViewSet.DuplicateRefusedBeforeHourCheck | meal_api/views/order_viewset.py:39-53 | a second order by the same employee on the same menu is refused at any hour |
| OrderViewSet.HourDecidesFirstOrder | meal_api/views/order_viewset.py:54-72 | without a prior order on an existing menu, the order is created exactly when the time is 11:00 or earlier |
| OrderViewSet.CreatedAppendsOneOrder | meal_api/views/order_viewset.py:65-77 | a successful create answers 201 and appends one order with the requester, menu, option and customizations asked for; nothing else changes |
| OrderViewSet.CreateKeepsOrdersConsistent | meal_api/views/order_viewset.py:39-72 | create preserves the table invariant: fresh ascending keys, orders only on existing menus, at most one order per employee and menu |
| OrderViewSet.VisibleOrders | meal_api/views/order_viewset.py:27-31 | a superuser sees every order; anyone else sees exactly the orders placed under their id, each as many times as the table holds it |
| OrderViewSet.VisibleOrdersInTableOrder | meal_api/views/order_viewset.py:31 | a non-superuser's listing is their orders in table order: the k-th entry is the order at their k-th position in the table, and none is skipped |
| MenuViewSet.Publish | meal_api/views/menu_viewset.py:38-58 | the view's answer and the new tables are those of the reference publish |
| MenuViewSet.PublishNeedsAnOption | meal_api/views/menu_viewset.py:42-58 | an existing menu is published (200) exactly when some meal option belongs to it; otherwise the answer is 304 and nothing changes |
| MenuViewSet.PublishChangesOnlyTheFlag | meal_api/views/menu_viewset.py:42-44 | publishing touches only the target menu's published flag: options, orders, other menus and the menu's date are untouched |
| MenuViewSet.PublishIdempotent | meal_api/views/menu_viewset.py:38-48 | publishing a second time gives the same answer and the same tables as the first |
| MenuViewSet.MenuOrdersListsTheMenusOrders | meal_api/views/menu_viewset.py:22-36 | the answer is 404 exactly when the menu is missing or has no order; otherwise it lists that menu's orders and no other |
| MenuViewSet.MenuOrdersCountsEach | meal_api/views/menu_viewset.py:25-31 | the 200 answer holds each of the menu's orders exactly as many times as the table does, and no other order |
| MenuViewSet.MenuOrdersInTableOrder | meal_api/views/menu_viewset.py:25-31 | the 200 answer lists the menu's orders in table order: the k-th entry is the order at the menu's k-th position in the table, and none is skipped |

## Left out

- Logging: the logger calls are left out, along with the fields attached to the failure log entry. The job's `logged` result stands for the logged failures.
- Celery's task registration and scheduling are left out. The job is modelled as a plain method call.
- The wall clock is left out. The current local time (America/Santiago) is a `now` parameter, in microseconds since midnight.
- The network and the HTTP library's internals are left out. The remote side is an oracle indexed by post number. What a post to a null address does is stated as the assumption `Http.NullUrlRaises`, not built into the oracle.
- Exceptions.DefaultExceptionMessage: does not model `pformat`'s repr quoting, escaping or line wrapping of the text. The Python dict rendering of the params is simplified, and `json.dumps` escaping of the body is not modelled. The status code and the params appear in the same places.
- Exceptions.SlackMessageException.constructor: does not model the base exception's `args`.
- Response bodies: the `detail` strings and serializer output of the views are left out. Each answer is a variant with its status code, and a created or listed order is the order record itself.
- Permissions and authentication (`IsAdminUser`, `IsAuthenticated`) are left out, and so are the other actions the framework generates for a view set.
- OrderViewSet.Create: assumes the requester is an existing employee, since the employee model is the user model.
  - It answers 404 for any menu reference not in the menu table. For a reference that is not a well-formed uuid, the source's uuid lookup raises a validation error that the view does not catch, so the source answers with a server error there.
  - It does not model the database error for a missing `selected_option` or `customizations`. The request carries typed values.
- Tasks.SortByOptionNumber: for options with equal numbers it keeps table order, while the database leaves their order unspecified. No lemma relies on the order of ties.
- Tables key menus by uuid, and meal options refer to their menu by uuid, whereas the source's option foreign key uses the primary key. The two keys are in one-to-one correspondence. The job looks a menu up by primary key, in a map from key to the loaded menu.
- The `Menu.__str__` rendering used in response texts is left out.
