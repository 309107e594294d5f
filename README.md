# Strawberry backend — a Dafny model of its orchestration core

Strawberry generates posts for VK communities. A main service keeps three things:

- a registry of groups, with a readiness status per group;
- the users who registered them;
- the hashes of the VK access tokens it has accepted.

It fans requests out to generation backends. One of these backends, the text generator, fine-tunes a language model per group. Every minute a background tick asks the backends whether each group is ready and writes the answer back into the registry.

This project models that core as Dafny modules, one per source file, plus three shared ones:

| module | source | form |
|---|---|---|
| `Microservices` | main_service/src/microservices.py | class `MicroserviceManager`, loops over the backend list |
| `MainDatabase` | main_service/src/database.py | class `Database` over in-memory tables |
| `MainServer` | main_service/src/server.py | tick method, handler methods and read-only handler functions |
| `Signature` | main_service/src/utils.py | functions: `is_valid` and `parse_query_string` |
| `LegacyDatabase` | src/database.py | class `Database` holding the credential store and the groups table |
| `LegacyServer` | src/server.py | tick method (nested loops) and handlers |
| `TextGenServer` | text_gen/src/server.py | class `TextGenService`, whose weights directory is a set of trained ids |
| `NeuralNetwork` | text_gen/src/neural_network.py | length bucket, training-file builder (a loop) and output clean-up |
| `Types`, `Text`, `GroupTable` | — | status codes and exceptions, Python string built-ins (`strip`, `replace`, `split`), and the `vk_groups` table |

Modelling conventions:

- **Statements act at once.** Every SQL statement takes effect immediately on sequences of rows kept in insertion order. An autoincrement key is the row's position plus one.
- **Backend answers are values.** An HTTP exchange with a backend becomes an `Answer`: `Ok`, `Error`, `Other(text)` for any other `result` text, or `Unreachable`. `Unreachable` covers a timeout, a refused connection, and a body without a usable `result`. A fan-out takes one answer per configured backend, in list order.
- **Opaque functions are parameters.** SHA-256, HMAC-SHA256, base64, `urlencode` and the tokenizer's token count are passed in as functions.
- **Time is a number.** A clock reading is a number of seconds.
- **The servers are modelled as composed, not as they load.** As written, neither server module runs at all. main_service/src/server.py:10 imports `VerifyModel` and `RenewModel`, which main_service/src/models.py does not define. src/server.py:10 imports `microservice_check_status`, which src/microservices.py does not define. Each import fails, so neither module loads and none of its handlers or ticks runs. `MainServer` and `LegacyServer` describe the program their authors evidently meant, with the missing pieces supplied as described below.
- **Credential store.** main_service/src/server.py:8 binds `db` to main_service's `Database`, which defines neither `add_token` nor `is_valid_token`. As written, every token call in the main handlers would raise `AttributeError`. The model composes the main handlers with `LegacyDatabase.Database` as their credential store, because src/database.py is the only definition of those two methods. `update_token` is defined nowhere; `renew` therefore reaches a call that raises inside its `try`, and answers 2.
- **User ids.** main_service/src/server.py:137 passes the token where the registry expects a user id. User keys are therefore strings. Nothing in main_service/src calls `add_user_id` (main_service/src/database.py:59). The registry starts with no users (`MainDatabase.Database.constructor`), and the only handlers that change it, `MainServer.CheckStatuses` and `MainServer.AddGroup`, leave the user table unchanged. So, in the composed model, `add_group` with a valid token registers the group and then answers 2 without contacting any backend, and `get_groups` without a group id always answers 2. `MainDatabase.Database.AddUserId` is modelled for completeness; no handler reaches it.

## Model

| member | source | states |
|---|---|---|
| Microservices.ReadinessMeaning | main_service/src/microservices.py:50-68 | The readiness verdict raises `MicroserviceException` iff some backend answered "ERROR" or was unreachable. Otherwise it is true iff every backend answered "OK", which makes it true for an empty list. An `Other` answer makes the verdict false without raising. |
| Microservices.CountOkAll | main_service/src/microservices.py:52-63 | The count of "OK" answers never exceeds the number of answers, and equals it iff every answer is "OK". |
| Microservices.FindService | main_service/src/microservices.py:27-31 | Returns the index of the first backend with the requested docker name. It returns None iff no backend has that name. |
| Microservices.GenerateResult | main_service/src/microservices.py:25-48 | With no backend of that name, the re-raise reads an unbound `service` (UnboundLocalError). Otherwise the backend's answer comes back unchanged, "ERROR" and failed exchanges raise `MicroserviceException`, and "OK" comes back as "OK". |
| Microservices.MicroserviceManager.CheckStatus | main_service/src/microservices.py:50-68 | The loop's result equals the readiness verdict. The number of backends queried is the first aborting position plus one when some backend aborts, and all backends otherwise. Loop invariant: `ready_count` is the count of "OK" answers so far and never exceeds the number visited. |
| Microservices.MicroserviceManager.AddGroup | main_service/src/microservices.py:12-23 | Fails with `MicroserviceException` iff some backend answers "ERROR" or is unreachable. Backends are contacted in order up to and including the first such one, and all of them when none fails. |
| Microservices.MicroserviceManager.Generate | main_service/src/microservices.py:25-48 | The search loop contacts exactly the backend `FindService` names, or none. The result is `GenerateResult`. |
| GroupTable.FindGroup | main_service/src/database.py:122-128 | Returns the index of the first row with the group id. It returns None iff no row has it. |
| GroupTable.SetStatus | main_service/src/database.py:110-117 | Every row with the group id gets the new status. Every other row, and every key and group id, is unchanged. |
| GroupTable.SetStatusIdempotent | main_service/src/database.py:110-117 | Applying the same update twice is the same as applying it once. |
| GroupTable.Project | main_service/src/database.py:132-141 | Gives one (group id, status) pair per row, in table order. |
| MainDatabase.InsertIfAbsentFacts | main_service/src/database.py:84-92 | The conditional insert keeps existing rows in place and leaves the table unchanged when the group has a row. A group without a row gets exactly one new row, at the end, with status 1 (not ready), and the group's lookup finds that row. Afterwards the group always has a row. The insert is idempotent, and it keeps sequential keys and unique group ids. |
| MainDatabase.RowsIn | main_service/src/database.py:157-162 | A row is selected iff its key is among the linked keys. The query promises no order; the model returns table order. |
| MainDatabase.RowsInAppend | main_service/src/database.py:157-162 | Selecting from two runs of rows is selecting from the first, then from the second. |
| MainDatabase.LinkedGroups | main_service/src/database.py:151-155 | A group key is linked iff some link row joins it to the user row. |
| MainDatabase.RowsInNoDuplicates | main_service/src/database.py:157-162 | Selecting from a table without repeated rows repeats none. |
| MainDatabase.FindUser | main_service/src/database.py:99-102 | Returns the index of the first user row holding the key. It returns None iff no row holds it. |
| MainDatabase.Database.AddUserId | main_service/src/database.py:59-66 | Appends one user row with the next key, and `is_valid_user_id` of that user is true afterwards. |
| MainDatabase.Database.IsValidUserId | main_service/src/database.py:68-78 | True iff some user row holds the key. |
| MainDatabase.Database.AddGroup | main_service/src/database.py:80-108 | The groups table becomes the conditional insert of the old one, whatever the outcome. A group that had no row gains exactly one, and its status reads 1 afterwards. A group that had a row keeps the table and its status unchanged. The call fails with `DBException` iff the user is unknown, checked after the insert, and then no link is added. On success exactly one link is appended, from the user's first row to the group's row, even when an identical link exists. |
| MainDatabase.Database.UpdateGroupStatus | main_service/src/database.py:110-117 | The groups table becomes `SetStatus` of the old one. Users and links are unchanged. |
| MainDatabase.Database.GetGroupStatus | main_service/src/database.py:119-130 | Returns 2 when no row has the group id. Otherwise it returns the status of the first row that has it. |
| MainDatabase.Database.GetAllGroups | main_service/src/database.py:132-141 | Returns one pair per row, in table order. |
| MainDatabase.Database.GetOwnedGroups | main_service/src/database.py:143-165 | Raises `DBException` iff the user is unknown. Otherwise it returns the rows linked to the user's first row (in table order in the model; the query has no `ORDER BY`). |
| MainDatabase.Database.OwnedGroupsMeaning | main_service/src/database.py:143-165 | A group row is owned iff a link joins it to the user's first row. No owned row is listed twice. |
| MainServer.TickStatus | main_service/src/server.py:90-93 | The tick writes 0 iff every backend answered "OK", and 3 otherwise. It never writes 1. |
| MainServer.FirstFailure | main_service/src/server.py:86-96 | Gives the position of the first group whose readiness check raises. Every check before it returns. |
| MainServer.TickEffect | main_service/src/server.py:86-96 | A row whose group is checked before the first failing check gets 0 or 3 from that check. Every other row is untouched. |
| MainServer.TickOutcome | main_service/src/server.py:86-96 | Over the registry (unique group ids), rows before the first failing check get their own verdict, and rows from it on keep their status. The tick raises nothing. |
| MainServer.CheckStatuses | main_service/src/server.py:82-96 | The tick loop leaves the groups table as `Tick` of the old table and its snapshot. Users and links are unchanged. |
| MainServer.Verify | main_service/src/server.py:99-110 | Stores the token hash and answers 0 iff the signature is valid and storing succeeds. A failed store answers 2. A missing `sign` or a bad signature is a server error. Tokens change only on success. |
| MainServer.Renew | main_service/src/server.py:113-125 | Answers 1 for an unknown old token. A known old token reaches the missing `update_token` and answers 2. Nothing changes in either case. |
| MainServer.AddGroup | main_service/src/server.py:128-142 | A bad token answers 1 and touches neither the registry nor any backend. Otherwise the group is registered first: a new group gets one row with status 1, and a known group keeps its status. Then 0 iff the token is a registered user and no backend fails, and 2 otherwise. For a registered user exactly one link is appended, from the user's first row to the group's row, and backends are contacted up to the first failure. An unknown user gets no link and no backend is contacted. The group stays registered when the fan-out fails. |
| MainServer.SliceBound | main_service/src/server.py:162 | A slice bound is normalised as Python does: counted from the end when negative, then clamped to the list. |
| MainServer.PageContents | main_service/src/server.py:162 | With non-negative offset and count, the page holds the elements from `offset` on, at most `count` of them, in order. |
| MainServer.GetGroups | main_service/src/server.py:145-166 | A bad token gives (1, [], 0). A `group_id` query gives one entry with `count=1`. Otherwise `count` is the full owned length and the data is sliced `[offset:offset+count]` only when both are given. An unknown user gives (2, [], 0). |
| MainServer.BackendName | main_service/src/server.py:180 | `generate_text` names "text_gen", `generate_image` names "image_gen" and `generate_meme_template` names "meme_template_gen", and each name belongs to exactly one handler. |
| MainServer.BackendNamesDistinct | main_service/src/server.py:199 | No two generation handlers name the same backend. |
| MainServer.GenerateContent | main_service/src/server.py:169-223 | For each of `generate_text`, `generate_image` and `generate_meme_template`, with the backend that handler names: a bad token gives ("", 1), and a stored status other than 0 gives ("", 3). Status 0 comes back iff the group is ready and the named backend exists and answers; the data is then its answer. Status 2 comes back iff the token is good, the group is ready, and the named backend is missing or fails. Every non-0 reply has empty data. |
| Signature.VkItems | main_service/src/utils.py:10-11 | Every item kept has a key starting with `vk_`. |
| Signature.VkItemsAppend | main_service/src/utils.py:10-11 | The `vk_` items of two runs of parameters are those of the first followed by those of the second, so the filter keeps dictionary order. |
| Signature.VkItemsCount | main_service/src/utils.py:10-11 | Each `vk_` item is kept as often as it occurs, and every other item is dropped. |
| Signature.Sort | main_service/src/utils.py:11 | `sorted` returns a permutation of its input. |
| Signature.SortSorted | main_service/src/utils.py:11 | The output of `sorted` is ascending in Python's tuple order. |
| Signature.SortedUnique | main_service/src/utils.py:11 | Two ascending arrangements of the same items are equal, so the sorted order does not depend on the input order. |
| Signature.UrlSafe | main_service/src/utils.py:14-15 | The signature text is one character shorter than the base64 text and contains no `+` or `/`. Each position maps `+` to `-` and `/` to `_`. |
| Signature.IsValid | main_service/src/utils.py:8-16 | Raises `KeyError` iff there is no `sign`. Otherwise the verdict is true iff `sign` equals the computed signature. |
| Signature.VerdictDependsOnVkItems | main_service/src/utils.py:10-16 | Requests with the same `vk_` items (as a multiset) and the same `sign` get the same verdict. |
| Signature.VerdictOrderIndependent | main_service/src/utils.py:11 | Reordering a request's parameters does not change the verdict. |
| Signature.VerdictIgnoresOtherParams | main_service/src/utils.py:10-11 | Changing a parameter that is neither `vk_` nor `sign` does not change the verdict. |
| Signature.Lookup | main_service/src/utils.py:16 | Returns None iff no item has the key. Otherwise the value belongs to an item with that key. |
| Signature.ParseIntDecimal | main_service/src/utils.py:21 | `int()` reads back the decimal text `str()` writes for any natural number. |
| Signature.ParseIntDigits | main_service/src/utils.py:21 | `int()` reads a run of ASCII digits as the number they denote, and the same run behind a minus sign as its negation. |
| Signature.PairsOf | main_service/src/utils.py:20 | Succeeds iff every segment splits on `=` into exactly two parts, and raises `ValueError` otherwise. |
| Signature.Dict | main_service/src/utils.py:20 | The keys of `dict(pairs)` are exactly the keys of the pairs. |
| Signature.DictLastWins | main_service/src/utils.py:20 | A key holds the value of its last pair: later duplicates overwrite earlier ones. |
| Signature.ParseQueryString | main_service/src/utils.py:19-22 | Raises `ValueError` when some `&` segment lacks exactly one `=`. On success every segment has exactly one `=`, `vk_user_id` is present and an integer, and every other value is a string. |
| Signature.ParseQueryTextRoundTrip | main_service/src/utils.py:19-22 | Parsing `k=v&…` built from plain pairs gives their dictionary, with `vk_user_id` read as the number it spells. |
| LegacyDatabase.Unexpired | src/database.py:52-58 | A row survives the sweep iff it was acquired after the cutoff. |
| LegacyDatabase.UnexpiredAppend | src/database.py:52-58 | Sweeping two runs of rows is sweeping the first, then the second, so the kept rows stay in table order. |
| LegacyDatabase.UnexpiredCount | src/database.py:52-58 | The sweep keeps every copy of a young row and no copy of an old one. |
| LegacyDatabase.UnexpiredIdempotent | src/database.py:52-58 | Sweeping twice with the same clock reading is sweeping once. |
| LegacyDatabase.UnexpiredKeepsFresh | src/database.py:52-58 | A table of young rows is left as it is. |
| LegacyDatabase.HasHash | src/database.py:60-68 | True iff some row carries the hash. |
| LegacyDatabase.Database.AddToken | src/database.py:44-50 | Appends the token's hash with the current time. The plaintext is never stored. `is_valid_token` of the token is true afterwards. |
| LegacyDatabase.Database.AutoremoveOldTokens | src/database.py:52-58 | The credential table becomes the rows acquired after now minus one day. |
| LegacyDatabase.Database.IsValidToken | src/database.py:60-68 | True iff some stored row has the hash of the token. |
| LegacyDatabase.Database.AddGroup | src/database.py:70-75 | Always appends a row with status 2, even when the group id is already present. |
| LegacyDatabase.Database.UpdateGroupStatus | src/database.py:77-82 | The groups table becomes `SetStatus` of the old one. |
| LegacyDatabase.Database.GetGroupStatus | src/database.py:84-90 | Fails with `IndexError` iff no row has the group id. Otherwise it returns the first such row's status. |
| LegacyDatabase.Database.GetAllGroupsStatus | src/database.py:92-98 | Returns one pair per row, duplicates included, in table order. |
| LegacyServer.LegacyTickEffect | src/server.py:51-60 | A row ends the group pass at 0 iff some snapshot entry for its group had statuses summing to the number of hosts. Every other row is unchanged. |
| LegacyServer.LegacyTickNeverDowngrades | src/server.py:52-60 | The pass writes nothing but 0, so every row is either untouched or ready. A row whose own statuses sum to the number of hosts becomes ready. |
| LegacyServer.CheckStatuses | src/server.py:47-60 | Sweeps the credentials first, then runs the nested loops. The loop invariant is that `count` is the sum of the statuses seen. The result is `LegacyTick` of the old table. |
| LegacyServer.Verify | src/server.py:63-70 | Answers "OK" and stores the token iff the signature is valid. Otherwise it answers "BAD" and stores nothing. A missing `sign` is a server error. |
| LegacyServer.AddGroup | src/server.py:73-82 | A bad token gives 404 and changes nothing. Otherwise a status-2 row is appended and then every host is contacted in order. The first unreachable host makes a server error, and the row stays. |
| LegacyServer.FirstUnreachable | src/server.py:81-82 | Gives the position of the first host whose exchange raises. |
| LegacyServer.GetGroups | src/server.py:85-90 | A bad token gives 404. Otherwise the response wraps the method `db.get_all_groups_status` without calling it, and is a server error. |
| LegacyServer.Generate | src/server.py:93-98 | A bad token gives 404 and contacts no host. Otherwise the host's reply is returned, or a server error when the exchange raises. |
| TextGenServer.SplitPosts | text_gen/src/server.py:59-60 | The test part has the first k posts and the train part the rest. Together they are the posts, in order. |
| TextGenServer.TextGenService.CheckStatus | text_gen/src/server.py:77-81 | Answers 1 iff the group is ready, and 0 otherwise. |
| TextGenServer.TextGenService.AddGroup | text_gen/src/server.py:49-65 | A ready group returns at once with nothing changed. Otherwise both dataset files are written from the split and the group becomes ready iff training succeeds. A normal return always leaves the group ready. |
| TextGenServer.TextGenService.Generate | text_gen/src/server.py:68-74 | A group that is not ready gets "" without any model. Otherwise the result is the cleaned-up generation, which contains no `</s>`. |
| NeuralNetwork.GetLengthParam | text_gen/src/neural_network.py:27-37 | Gives '1' iff ≤15 tokens, '2' iff 16–50, '3' iff 51–256 and '-' iff more. |
| NeuralNetwork.LengthParamMonotone | text_gen/src/neural_network.py:27-37 | More tokens never give a shorter bucket. |
| NeuralNetwork.PostText | text_gen/src/neural_network.py:42-43 | The substituted post has no newline, and is empty iff the post is. |
| NeuralNetwork.Body | text_gen/src/neural_network.py:45-46 | A line is `\|L\|`, the substituted post and the end marker, where L is the post's length bucket. It has no newline when the marker has none. |
| NeuralNetwork.Bodies | text_gen/src/neural_network.py:41-46 | Gives one line per non-empty post. Each line is the line of such a post. |
| NeuralNetwork.BodiesSingle | text_gen/src/neural_network.py:41-46 | A single post gives its own line, or no line when it is empty. |
| NeuralNetwork.BodiesAppend | text_gen/src/neural_network.py:41-46 | The lines of two runs of posts are the lines of the first followed by those of the second. With `BodiesSingle`, the file has exactly one line per non-empty post, in post order. |
| NeuralNetwork.FileReadback | text_gen/src/neural_network.py:41-46 | Splitting the file on newlines gives back exactly the lines written, in order, then the empty tail. |
| NeuralNetwork.BuildTextFile | text_gen/src/neural_network.py:39-46 | The loop writes exactly `FileText(Bodies(texts))`. |
| NeuralNetwork.Cleanup | text_gen/src/neural_network.py:136-137 | The cleaned output contains no `</s>` and has no leading or trailing whitespace. |
| NeuralNetwork.CleanupCut | text_gen/src/neural_network.py:136-137 | For a text `a`, then `</s>`, then anything, where `a` has no marker, the output is `a` stripped of surrounding whitespace. Everything from the first `</s>` on is dropped. |
| NeuralNetwork.CleanupDropsStart | text_gen/src/neural_network.py:123-136 | The `<|startoftext|>` that `generate` puts in front is removed and does not change the output. |
| NeuralNetwork.CleanupUnmarked | text_gen/src/neural_network.py:136-137 | A text with no markers comes out stripped of surrounding whitespace and otherwise unchanged. |
| Text.Strip | text_gen/src/neural_network.py:137 | `strip()` gives a substring of the text that neither starts nor ends with whitespace. Everything removed before and after it is whitespace. |
| Text.BeforeFirstAt | text_gen/src/neural_network.py:137 | `split(sep)[0]` of `a + sep + b` is `a` when `a` holds no separator and the separator cannot overlap itself. |
| Text.ReplaceKeepsPrefix | text_gen/src/neural_network.py:136 | `replace` leaves a prefix alone when no occurrence of the pattern starts inside it. |
| Microservices.AnswerOf | main_service/src/microservices.py:18-20 | A `result` text maps to `Ok` iff it is "OK", to `Error` iff it is "ERROR", and to an `Other` text otherwise. An `Other` answer never holds "OK" or "ERROR". |
| Microservices.AnswerOfRoundTrip | main_service/src/microservices.py:18-20 | Texts and answers that came back correspond one to one. |

## Left out

- **Transport and I/O.** HTTP routing, request validation, CORS, the OpenAPI customisation, logging, startup table creation, `repeat_every` scheduling and concurrent requests are not modelled. One tick or one handler call runs at a time.
- **Database engine.** Engine, connections and transactions are not modelled. The model applies each statement at once, even though main_service/src/database.py never commits.
- **Opaque primitives.** SHA-256, HMAC-SHA256, base64, `urlencode`, the tokenizer, model loading, training and sampling are parameters or left out.
- **Training.** The `0.1` split factor is a floating-point product. `TextGenServer.SplitPosts` takes the split index as a parameter between 0 and the number of posts.
- TextGenServer.TextGenService.AddGroup: as written, training always raises. Each epoch of `train` ends by printing `cum_loss / len(self.test_loader)` (text_gen/src/neural_network.py:109). `train` only binds a local `test_loader` (line 67), and no `self.test_loader` is ever assigned, so the first epoch ends in `AttributeError` after its checkpoint is saved. `add_group` then never reaches the rename at text_gen/src/server.py:65, and no group becomes ready through it. The model keeps `trainingFails` as a parameter. The code as written is the `trainingFails == true` case; the `false` case describes the intended program.
- **Clock.** The age sweep reads `datetime.today()`, while rows are stamped with `utcnow`. The model uses one clock reading for both, so the time-zone offset between them is not modelled.
- **Request models.** `VerifyModel` and `RenewModel` are imported by main_service/src/server.py:10 but not defined in main_service/src/models.py, so as written the module fails to import. `GroupAddModel` and `GenerateQueryModel` have no `vk_token`. The main handlers take these fields as parameters.
- **Backend reply shapes.** The text backend answers `check_status` with 1/0, `add_group` with nothing, and `generate` under a `data` key. The main service expects a `result` field with "OK". The model leaves each backend's answer abstract.
- LegacyServer.Generate: passes the host's answer through unchecked. The `DataDict` response model (src/models.py:28-29) would turn a reply whose `data` is not a dict into a server error; the model's `Answer` does not record the reply's shape, so that failure is not modelled.
- LegacyServer.CheckStatuses: src/server.py:10 imports `microservice_check_status`, which src/microservices.py does not define, so as written src/server.py fails to import and no legacy handler runs. Per-host statuses are therefore inputs. The sweep at src/server.py:50 is called without the argument src/database.py:52 requires. The model passes the clock reading.
- LegacyDatabase.Database.UpdateGroupStatus: src/database.py:80 sets a column named `status`, which the table lacks (its column is `status_id`). The model sets `status_id`.
- LegacyServer.Verify: src/utils.py is not part of this model; its `is_valid` is taken to be that of main_service/src/utils.py.
- MainServer.Verify: a bad signature makes the handler return nothing, which its response model rejects; the model reports it as a server error. A failing store is a boolean parameter.
- MainServer.Renew: `update_token` is not defined anywhere, so a valid renewal never replaces the token.
- Signature.ParseInt: Unicode digits and other bases that Python's `int()` accepts are not modelled; only ASCII decimal digits with single underscores are.
- Main-database user keys are strings compared by equality; the coercion of the integer `vk_user_id` column is not modelled.
- Database exceptions other than those the code raises itself (lost connections, constraint errors) are not modelled, except the boolean store failure of `MainServer.Verify`.
