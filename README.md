# Social network record store — a Dafny model

This project models the record store of a small social network. It has
two collections:

- user accounts (`users.py`), keyed by user id;
- status messages (`user_status.py`), keyed by status id.

In front of them sits the entry-point module `main.py`. It checks every
field before an add or an update. It also loads collections from CSV files
and saves them back.

The model has these modules:

- `Wrappers`: `Option`. `None` stands for the all-`None` placeholder record
  that a search returns for an unknown id.
- `Dicts`: a Python dict with string keys. The model keeps the map next to
  the keys' insertion order, with a re-added key going last, because a save
  writes records in that order.
- `Users`, `UserStatus`: the two collections as classes. Each has one
  `database` field that `add`, `modify` and `delete` update in place.
- `Validators`: the validation functions. The model defines ASCII
  versions of whitespace (the regex class `\s`, and the narrower set
  `int()` skips around a number), digits, `str.isalpha` and `int()` once,
  and every validator uses them. The email regular
  expression is written out as a predicate on strings.
- `Bulk`: the row logic of `load_collection` and `save_collection`, with
  the column tables of the four load and save functions. A file arrives as
  its rows, each a map from column name to value.
- `Facade`: the validated `add_*`, `update_*`, `delete_*` and `search_*`
  functions of `main.py`.
- `Scenarios`: the concrete inputs of the validator tests, proved
  accepted or rejected through general lemmas.

Two behaviours are easy to misread:

- A load row whose key is already present is skipped and the load goes on.
  `load_collection` ignores the result of `add` (main.py:236), and the
  docstrings of `load_users` and `load_status_updates` (main.py:30-32,
  main.py:70-71) describe the same skip.
- `validate_email` accepts exactly what its regular expression matches.
  That includes an address with a trailing newline, because `$` also
  matches just before one final newline.

## Model

| member | source | states |
|---|---|---|
| Dicts.Dict.Put | users.py:43 | `d[k] = v`: the new map is the old one with `k` bound to `v`. A new key goes last in the order, and a present key keeps its place. |
| Dicts.Dict.Add | users.py:35-45 | Adds only when the key is absent. A present key leaves the dict equal to itself. The insertion order stays valid. |
| Dicts.Dict.Remove | users.py:74 | `del d[k]`: the key leaves the map and the order, the other keys keep their values, and the new order is the old one with k's one position cut out. |
| Dicts.Without | users.py:74 | Keeps exactly the keys other than `k`, and keeps distinct keys distinct. |
| Dicts.WithoutAbsent | users.py:74 | Cutting out a key that does not occur leaves the order as it is. |
| Dicts.WithoutAt | users.py:74 | From distinct keys, cutting out `k` at position p gives the keys before p followed by the keys after p. |
| Dicts.EmptyDict | users.py:29 | `{}`: no keys and an empty order. |
| Users.UserCollection.constructor | users.py:27-29 | A new collection holds no users. |
| Users.UserCollection.AddUser | users.py:31-45 | True exactly when the id is new. A taken id changes nothing, including the stored record. A new id is appended with exactly the given fields. |
| Users.UserCollection.ModifyUser | users.py:47-61 | True exactly when the id is present. Then only that record's email and names change, and the key order stays the same. An unknown id changes nothing. |
| Users.UserCollection.DeleteUser | users.py:63-76 | True exactly when the id is present. Only that record is removed, and afterwards the id is absent. An unknown id changes nothing. |
| Users.UserCollection.SearchUser | users.py:78-87 | Some exactly when the id is present, and then it is the stored record, whose id is the one searched for. |
| UserStatus.UserStatusCollection.constructor | user_status.py:25-27 | A new collection holds no messages. |
| UserStatus.UserStatusCollection.AddStatus | user_status.py:29-45 | True exactly when the status id is new. A taken id leaves the stored message unchanged. Nothing checks that the user exists. |
| UserStatus.UserStatusCollection.ModifyStatus | user_status.py:47-65 | True exactly when the status id is present. Then only that message's user id and text change. |
| UserStatus.UserStatusCollection.DeleteStatus | user_status.py:67-83 | True exactly when the status id is present. Only that message is removed, and afterwards the id is absent. |
| UserStatus.UserStatusCollection.SearchStatus | user_status.py:85-101 | Some exactly when the status id is present, and then it is the stored message. |
| Validators.StripKeeps | main.py:262-274 | A character that `int()` does not skip as whitespace survives the stripping of surrounding whitespace. |
| Validators.JoinSplit | main.py:296-313 | Joining the pieces of `split(sep)` with `sep` gives back the string. |
| Validators.SplitJoin | main.py:296-313 | Splitting a join of separator-free pieces gives back the pieces. |
| Validators.SplitAtOnly | main.py:301-303 | A string with exactly one separator, at `i`, splits into the part before `i` and the part after it. |
| Validators.SplitInTwo | main.py:301-303 | A split into two pieces means exactly one separator, which sits right after the first piece. |
| Validators.SplitLastEmpty | main.py:282-283 | A string that ends with the separator splits into pieces whose last one is empty. |
| Validators.NumericUserIdRejected | main.py:262-274 | A non-empty all-digit id parses as an integer, so it is refused. |
| Validators.ForeignCharNotInt | main.py:262-274 | A string holding a character that is no digit, underscore, sign or whitespace does not parse as an integer. |
| Validators.DigitsAreInt | main.py:308-313 | A non-empty run of digits parses as an integer. |
| Validators.UserIdWithLetterAccepted | main.py:262-274 | A space-free id that contains a letter is accepted. |
| Validators.StatusIdShape | main.py:296-313 | A status id is accepted iff it has exactly one `_`, a valid user id before it and an integer after it. |
| Validators.EmailShapeParts | main.py:276-285 | The regex without its trailing-newline case holds iff there is exactly one `@`, a non-empty run of local characters before it, and a dotted domain after it. |
| Validators.EmailAccepted | main.py:276-285 | One `@` after local characters, then two domain labels around one `.` with the last label at least two long: the email is accepted. |
| Validators.FirstInvalidUserInput | main.py:323-340 | Reports the first failing field in the order USER_ID, EMAIL, NAME, LASTNAME. Each answer holds iff the fields before it pass and its own field fails. None iff all four pass. |
| Validators.FirstInvalidStatusInput | main.py:342-356 | Reports the first failing field in the order STATUS_ID, USER_ID, STATUS_TEXT. Each answer holds iff the fields before it pass and its own field fails. None iff all three pass. |
| Bulk.Arguments | main.py:234-235 | `[row[key] for key in keys]`: one value per table column, in the table's order. |
| Bulk.CheckCells | main.py:221-231 | The cell loop returns true iff every cell is non-blank, names a known column and passes that column's validator. |
| Bulk.LoadUsers | main.py:23-42 | `load_users` on read rows. Its result and the new database are what `Load` gives with the user table and `add_user`. |
| Bulk.LoadStatusUpdates | main.py:64-79 | `load_status_updates` on read rows. Its result and the new database are what `Load` gives with the status table and `add_status`. |
| Bulk.LoadSucceedsIffAllAccepted | main.py:219-240 | A load returns true iff every row is accepted. Duplicate keys never make it fail. |
| Bulk.LoadStopsAtFirstRejected | main.py:221-231 | At the first rejected row the load returns false, with exactly the rows before it applied and none after it. |
| Bulk.LoadNeverOverwrites | main.py:233-238 | A load never changes or removes a stored record, and never moves it in the order. A duplicate row is skipped. |
| Bulk.LoadStoresEveryKey | main.py:233-238 | After a successful load, every row's key is present. |
| Bulk.LoadSnoc | main.py:219-238 | After a successful load, one more row either fails the load or is added under its first value. |
| Bulk.SavedRows | main.py:255-257 | One row per record, in the database's key order. |
| Bulk.SaveCollection | main.py:244-260 | Writes the header, then exactly the rows of `SavedRows`. |
| Bulk.SaveUsers | main.py:45-61 | The header `USER_ID, EMAIL, NAME, LASTNAME`, then one row per user, in order. |
| Bulk.SaveStatusUpdates | main.py:82-94 | The header `STATUS_ID, USER_ID, STATUS_TEXT`, then one row per message, in order. |
| Bulk.PrefixStep | main.py:255-257 | Adding the next key in order extends a saved prefix by exactly that record. |
| Bulk.SaveLoadRoundTrip | main.py:211-260 | The rows a save produces, loaded back into an empty database, rebuild the database, order included, and the load succeeds, whenever every record passes the load checks. The CSV file between them is not modelled. |
| Bulk.EmailNotBlank | main.py:222 | A valid email is never blank. |
| Bulk.StatusIdNotBlank | main.py:222 | A valid status id is never blank. |
| Bulk.UserColumnsLookup | main.py:38-41 | The user table's validator for each of its four columns. |
| Bulk.StatusColumnsLookup | main.py:76-78 | The status table's validator for each of its three columns. |
| Bulk.UserRowColumns | main.py:57-60 | A saved user row holds every column `load_users` reads, in `add_user`'s argument order. |
| Bulk.StatusRowColumns | main.py:91-93 | A saved message row holds every column `load_status_updates` reads, in `add_status`'s argument order. |
| Bulk.UserRowRestores | main.py:23-61 | Loading the saved row of a user with valid fields and a non-blank id gives back that user, under its id. |
| Bulk.StatusRowRestores | main.py:64-94 | Loading the saved row of a valid message with non-blank user id and text gives back that message, under its status id. |
| Bulk.UserSaveLoadRoundTrip | main.py:23-61 | The rows `save_users` writes, loaded back by `load_users` into an empty collection, rebuild the database, and the load succeeds, when every user passes the load checks. |
| Bulk.StatusSaveLoadRoundTrip | main.py:64-94 | The rows `save_status_updates` writes, loaded back by `load_status_updates` into an empty collection, rebuild the database, and the load succeeds, when every message passes the load checks. |
| Facade.InitUserCollection | main.py:9-13 | A fresh, empty user collection. |
| Facade.InitStatusCollection | main.py:16-20 | A fresh, empty status collection. |
| Facade.AddUser | main.py:97-110 | True iff all four fields are valid and the id is new. Invalid fields leave the collection untouched. Valid fields lead to the collection's add. |
| Facade.UpdateUser | main.py:113-124 | True iff all four fields are valid and the id is stored. Then only that record's email and names change. |
| Facade.DeleteUser | main.py:127-135 | True iff the id is stored. Then only that record is removed. |
| Facade.SearchUser | main.py:138-150 | As written: Some iff the id is stored and non-empty, and then it is the stored record. |
| Facade.SearchUserCorrected | main.py:138-150 | As intended: Some iff the id is stored, and then it is the stored record. |
| Facade.EmptyUserIdIsLost | main.py:148 | Adding user `''` with valid other fields succeeds. Searching for `''` then answers None, while the corrected search returns the record. |
| Facade.EmptyIdAccepted | main.py:262-274 | `''` with a valid email and names passes `validate_user_inputs`. |
| Facade.AddStatus | main.py:153-167 | Takes the user id first. True iff both ids are valid and the status id is new. Invalid ids leave the collection untouched. |
| Facade.UpdateStatus | main.py:170-181 | True iff both ids are valid and the status id is stored. Then only that message's user id and text change. |
| Facade.DeleteStatus | main.py:184-192 | True iff the status id is stored. Then only that message is removed. |
| Facade.SearchStatus | main.py:195-207 | Some iff the status id is stored and non-empty, and then it is the stored message. |
| Facade.ValidStatusIdNotEmpty | main.py:296-313 | A valid status id is never empty, so for messages added through the facade or the loader `search_status`'s truth test is exact. |
| Scenarios.UserIdCases | test_main.py:372-381 | Accepts `dave03`, `evmiles97`, `mbakke63` and `andy14`. Refuses `asdf 123` and `123141`. |
| Scenarios.EmailAcceptedCases | test_main.py:383-392 | Accepts the three addresses the tests accept. |
| Scenarios.EmailRejectedCases | test_main.py:383-392 | Refuses the address with a space, the one without a dot, the one with a trailing dot and the one without `@`. Also refuses `test@.`, as the add_user test at test_main.py:164-165 does. |
| Scenarios.EmailLocalSpaceRejected | main.py:282-283 | With exactly one `@`, any `\s` character before it makes an email invalid, with or without a trailing newline. |
| Scenarios.EmailDomainWithoutDotRejected | main.py:282-283 | With exactly one `@`, a domain with no `.` makes an email invalid, with or without a trailing newline. |
| Scenarios.EmailTrailingDotRejected | main.py:282-283 | A domain ending in `.` makes an email invalid. |
| Scenarios.EmailWithoutAtRejected | main.py:282-283 | An email without `@` is invalid. |
| Scenarios.NameCases | test_main.py:394-403 | Accepts the test's names and refuses those with digits, spaces or punctuation. |
| Scenarios.StatusIdAccepted | main.py:296-313 | One `_` after a space-free user id with a letter, followed by digits: accepted. |
| Scenarios.StatusIdTwoSeparatorsRejected | main.py:301-304 | Two `_` make a status id invalid. |
| Scenarios.StatusIdWithoutSeparatorRejected | main.py:301-304 | No `_` makes a status id invalid. |
| Scenarios.StatusIdCounterRejected | main.py:308-313 | A counter holding a character that `int()` refuses makes a status id invalid. |
| Scenarios.StatusIdUserSpaceRejected | main.py:305-307 | A space in the user part makes a status id invalid. |
| Scenarios.StatusIdCases | test_main.py:405-421 | Accepts the four well-formed status ids of the test. Refuses the ones with two separators, no separator, a word counter, a decimal counter or a space. |

## Left out

- File handling is not modelled. That covers opening, the csv reader and writer, the `FileNotFoundError` paths, and `save_*` returning True or False. A load takes the rows already read, and a save returns its header and rows.
- Logging and `print` are not modelled. The empty-value message is one such print.
- `socialnetwork_db.py` is not part of this model.
- Bulk.CheckCells: the loop visits cells in an unspecified order, while Python visits them in column order. The loop has no side effect, so only the answer is stated, and the answer does not depend on the order.
- Validators.ValidateUserId, Validators.ValidateStatusId, Validators.ValidateName, Validators.ValidateEmail: whitespace, digits, letters and `int()` use ASCII definitions. Python also accepts Unicode whitespace, digits and letters. Single underscores between digits are modelled, and so is `int()` skipping only space, tab, newline, vertical tab, form feed and carriage return, not 0x1C-0x1F. The limit on the number of digits `int()` converts (4300 by default on current Pythons) is not modelled, so the model's `int()` accepts digit runs of any length.
- Validators.ValidateStatusText: it accepts every string. The `isinstance` check only refuses non-strings, which the model cannot express.
- Users.UserCollection.SearchUser, UserStatus.UserStatusCollection.SearchStatus: Python returns the stored object itself, so a caller could change a stored record through it. The model returns values and does not capture that aliasing.
- Ragged csv rows are not modelled: a missing cell read as `None`, or extra cells under a `None` key. A row is a map from column name to string.
- `load_collection` calls `getattr(collection, func)` by name. The model has one loader per collection instead.
- The concrete loads of the test CSV files are not proved. The general lemmas `Bulk.LoadSucceedsIffAllAccepted` and `Bulk.SaveLoadRoundTrip` cover their behaviour.
- Bulk.SaveLoadRoundTrip, Bulk.UserSaveLoadRoundTrip, Bulk.StatusSaveLoadRoundTrip: they hold only for records that pass the load checks. A record with a blank field, or with a user id `''` stored through the facade, makes the load fail. The round trip is of rows only: the file layer does not preserve a carriage return inside a value, because the save writes with `newline=''` (main.py:250) while the load reads with universal newlines (main.py:217), so a '\r' comes back as '\n'.

## Findings

| source | as written | input that shows it | evidently intended | confidence | as-written member | corrected member |
|---|---|---|---|---|---|---|
| main.py:148 | `search_user` returns the record only when `result.user_id` is truthy. `validate_user_id` accepts `''` because `int('')` raises. | `add_user('', 'a@b.co', 'Ann', 'Lee', c)` returns True, then `search_user('', c)` returns None | `search_user` returns the stored user whenever its id is present | not executed | Facade.SearchUser, Facade.EmptyUserIdIsLost | Facade.SearchUserCorrected |
