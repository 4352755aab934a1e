# Tableau backup monitor: the freshness check

The monitor is a scheduled Lambda function. Each run looks at the backup files
under one S3 prefix. It picks the most recently modified one and posts a Slack
alert in two cases: when there is no file at all, or when the newest file is
older than a threshold given in minutes (`threshold_min`, default 900).

This project models that decision as pure Dafny functions, in three modules:

- `Strings` (`strings.dfy`) models the Python string operations the handler uses:
  - `int(text)` for the threshold (`ParseInt`);
  - `str(n)` for printing the threshold back (`ShowInt`);
  - `key.split('/')` and its last piece, the base name (`Split`, `Basename`).
- `Listing` (`listing.dfy`) covers the listed objects and the choice of the latest one:
  - the sort key `get_last_modified`, which is the modification time in whole seconds;
  - Python's stable `sorted`, modelled as an insertion sort (`Sort`);
  - `objs[-1]` (`Latest`);
  - an independent reference for that choice: the last position holding the greatest key (`LastMaxIndex`).
- `Monitor` (`monitor.dfy`) is one run of `lambda_handler`:
  - the settings it reads from the environment;
  - the cutoff `now - threshold_min minutes`;
  - the verdict `Empty | Stale(latest) | Fresh(latest)`, or the failure that sends the run to the error handler;
  - the messages the run asks the notifier to post (`Notifications`) and their text (`Render`).

Time is an integer count of microseconds since 1970-01-01 UTC. Whole seconds
are not enough, because the code treats the fraction of a second in two places:
- the sort key drops it (`strftime('%s')`);
- the timestamp parse at `function.py:166` rejects a `last_modified` that has
  one, since `str()` then prints `.ffffff` and the format `'%Y-%m-%d %H:%M:%S+00:00'`
  does not match. That run goes to the error handler (`Failure.BadTimestamp`).

Points where the code's behaviour is easy to misread, and which the model follows:
- The stale alert names the base name of the key (`key.split('/')[-1]`), not the full key.
- When several objects share the greatest whole-second key, the code does not
  pick one at random. The stable sort selects the one listed last (`TieGoesToLaterListed`).
  So the object named in the alert depends on the listing order. The verdict does
  not depend on it when all timestamps are whole seconds (`VerdictIgnoresListingOrder`).
- The default threshold is 900 minutes (`function.py:144`).
- An object modified exactly at the cutoff counts as fresh, because the
  comparison `x_mins > obj_utc` is strict.

## Model

| member | source | states |
|---|---|---|
| `Strings.ParseInt` | lambda/tab_monitor/code/function.py:150 | `int(threshold_min)`: an accepted text is not blank after stripping white space. `ParseShowInt`, `ParseIntRejectsForeign` and `ParseDigitsOnly` give what it reads and what it rejects. |
| `Strings.ParseShowInt` | lambda/tab_monitor/code/function.py:150 | Reading back the printed threshold with `int()` gives the same integer, for every integer. |
| `Strings.ParseIntRejectsForeign` | lambda/tab_monitor/code/function.py:150 | `int()` raises when the text holds any character that is not white space, a sign, a digit or `_`. |
| `Strings.ParseDigitsOnly` | lambda/tab_monitor/code/function.py:150 | `int()` reads a string of plain decimal digits as the number they write. |
| `Strings.ShowInt` | lambda/tab_monitor/code/function.py:171-172 | `'{0}'.format(n)` of an int is never empty. Its meaning is given by `ParseShowInt`. |
| `Strings.ShowNatDigits` | lambda/tab_monitor/code/function.py:172 | The printed form of a natural number has only decimal digits, and their value is the number. |
| `Strings.Split` | lambda/tab_monitor/code/function.py:164 | `split('/')` always yields at least one piece. |
| `Strings.JoinSplit` | lambda/tab_monitor/code/function.py:164 | Joining the pieces of `split(sep)` with `sep` gives the key back. |
| `Strings.SplitPiecesLackSeparator` | lambda/tab_monitor/code/function.py:164 | No piece of `split(sep)` contains `sep`. |
| `Strings.Basename` | lambda/tab_monitor/code/function.py:164 | `key.split('/')[-1]` holds no `/` and is no longer than the key. `BasenameIsLastSegment` and `BasenameUnique` pin it down as the text after the last `/`. |
| `Strings.BasenameIsLastSegment` | lambda/tab_monitor/code/function.py:164 | The base name has no `/`, the key ends with it, and the character before it (if there is one) is `/`. |
| `Strings.BasenameWithoutFolder` | lambda/tab_monitor/code/function.py:164 | A key without `/` is its own base name. |
| `Strings.BasenameUnique` | lambda/tab_monitor/code/function.py:164 | Any slash-free tail of the key that starts the key or follows a `/` is the base name, so it is the text after the last `/`. |
| `Listing.SortKey` | lambda/tab_monitor/code/function.py:158 | `get_last_modified` is the modification time in whole seconds, rounded down: the key times one second is at most the time, and the time is less than one second more. |
| `Listing.Insert` | lambda/tab_monitor/code/function.py:161 | One insertion step of the stable sort adds exactly one element. |
| `Listing.Sort` | lambda/tab_monitor/code/function.py:161 | The sorted listing has as many objects as the listing. |
| `Listing.InsertPermutes` | lambda/tab_monitor/code/function.py:161 | An insertion adds the new object and nothing else, as a multiset. |
| `Listing.InsertOrdered` | lambda/tab_monitor/code/function.py:158-161 | Inserting into a list ordered by the seconds key keeps it ordered, with no key above the larger of the new key and the old last key. |
| `Listing.InsertWithKey` | lambda/tab_monitor/code/function.py:161 | For each key, an insertion places the new object behind every earlier object with that key and changes nothing else. |
| `Listing.SortIsStableSort` | lambda/tab_monitor/code/function.py:158-161 | The sorted list is non-decreasing by the seconds key and is a permutation of the listing. For each key it keeps the listing order of the objects with that key, which is stability. |
| `Listing.SortedWithSameKeysEqual` | lambda/tab_monitor/code/function.py:161 | Two key-ordered lists with the same objects in the same order for every key are equal. |
| `Listing.StableSortIsUnique` | lambda/tab_monitor/code/function.py:161 | Every stable sort of the listing by the seconds key equals `Sort`, whatever algorithm Python uses. |
| `Listing.LastMaxIndex` | lambda/tab_monitor/code/function.py:161-164 | Reference selection: a position holding the greatest key, with every later position holding a strictly smaller key. |
| `Listing.Latest` | lambda/tab_monitor/code/function.py:161-164 | `objs[-1]` after the sort is a listed object, and no listed object has a greater key. `LatestIsLastMaximal` says which one it is among ties. |
| `Listing.LatestIsLastMaximal` | lambda/tab_monitor/code/function.py:161-164 | `sorted(...)[-1]` is the object at `LastMaxIndex`. It has the greatest key, and among objects with that key it is the one listed last. |
| `Listing.LatestKeyIgnoresOrder` | lambda/tab_monitor/code/function.py:158-164 | Reordering the listing does not change the key of the selected object. |
| `Listing.TieGoesToLaterListed` | lambda/tab_monitor/code/function.py:161-164 | Of two objects with equal keys, the one listed second is selected, whichever order they are listed in. |
| `Monitor.Cutoff` | lambda/tab_monitor/code/function.py:151-152 | `datetime.now() - timedelta(minutes=...)`: a cutoff that exists lies inside the datetime range, `minutes` minutes before `now`. For `now` in range and a non-negative threshold, the cutoff exists whenever it would not fall before year 1. |
| `Monitor.Decide` | lambda/tab_monitor/code/function.py:163-177 | On a listing, the verdict keeps the threshold and cutoff. It is `Empty` exactly when nothing is listed, otherwise it names a listed object. The only failure is a bad timestamp. `DecideNonEmpty`, `DecideFailsOnlyOnFraction` and `StaleIffEveryObjectOlder` give the rest. |
| `Monitor.ThresholdText` | lambda/tab_monitor/code/function.py:144 | `os.environ.get('threshold_min', '900')` is the setting when it is set. Otherwise it is a text that `int()` reads as 900. |
| `Monitor.WithThreshold` | lambda/tab_monitor/code/function.py:151-161 | After `int()`: a cutoff out of range fails with `CutoffOutOfRange`, a failed listing fails, and a verdict carries the threshold and the cutoff computed from it. |
| `Monitor.Check` | lambda/tab_monitor/code/function.py:140-185 | One run: a missing `bucket_name` or `path_int_tab` fails the run with `MissingSetting`, and a verdict needs a successful listing. `DecidedRunSteps` adds that `int()` accepted the threshold text and gave the verdict's threshold. |
| `Monitor.Notifications` | lambda/tab_monitor/code/function.py:163-180 | A run posts at most one message, and it is the pipeline error exactly when the run failed. `AtMostOneNotice` adds that only a fresh verdict posts nothing. |
| `Monitor.Render` | lambda/tab_monitor/code/function.py:172-177 | The pipeline error text (built at line 46) ends with the console link, and the "no backups" text ends with the cutoff date. `StaleTextMentions` covers the stale alert. |
| `Monitor.WithThresholdSteps` | lambda/tab_monitor/code/function.py:151-161 | After `int()`, a verdict needs a cutoff in range and a listing, and it is the decision on that listing. |
| `Monitor.DecidedRunSteps` | lambda/tab_monitor/code/function.py:140-161 | A run reaches a verdict only when both settings exist, `int()` succeeds, the cutoff is in range and the listing succeeds. |
| `Monitor.SettingsRead` | lambda/tab_monitor/code/function.py:140-150 | Once both settings exist and `int()` succeeds, the run continues with the threshold it read. |
| `Monitor.CutoffInRange` | lambda/tab_monitor/code/function.py:151-152 | The cutoff is `minutes` minutes before `now` and lies inside the datetime range. |
| `Monitor.DecidedCutoff` | lambda/tab_monitor/code/function.py:151-152 | In a run that reaches a verdict, the cutoff is `threshold` minutes before `now`. |
| `Monitor.AtMostOneNotice` | lambda/tab_monitor/code/function.py:163-180 | Every run posts at most one message. It posts none exactly when the verdict is fresh. |
| `Monitor.EmptyListingAlertsOnce` | lambda/tab_monitor/code/function.py:175-177 | An empty listing always leads to exactly one message. When the settings are good, that message is the "no backups" alert, which carries only the cutoff and no object. |
| `Monitor.AlertIffStrictlyOlder` | lambda/tab_monitor/code/function.py:163-174 | For a non-empty listing, the verdict concerns `Latest`. An alert is sent exactly when the cutoff is strictly later than its time. A time equal to the cutoff is fresh. |
| `Monitor.DecideNonEmpty` | lambda/tab_monitor/code/function.py:163-174 | Once the decision on a non-empty listing is reached, it concerns `Latest`. It is stale, with one alert, exactly when the cutoff is strictly later than that object's time. |
| `Monitor.DecideFailsOnlyOnFraction` | lambda/tab_monitor/code/function.py:166 | After the listing, the only error is a selected object whose time has a fraction of a second. |
| `Monitor.StaleTextMentions` | lambda/tab_monitor/code/function.py:172 | The stale alert text contains the threshold in decimal and the file name. |
| `Monitor.StaleAlertNamesThresholdAndFile` | lambda/tab_monitor/code/function.py:164-172 | A stale run posts one alert, and its text contains the threshold and the base name of the selected object's key. |
| `Monitor.ThresholdDefaultsTo900` | lambda/tab_monitor/code/function.py:144 | With `threshold_min` unset, a run behaves exactly as with `"900"`. A verdict then uses 900 minutes. |
| `Monitor.DefaultThresholdIs900` | lambda/tab_monitor/code/function.py:144-150 | `int('900')` is 900. |
| `Monitor.BadThresholdFailsBeforeListing` | lambda/tab_monitor/code/function.py:150-180 | A threshold that `int()` rejects fails the run before the listing, whatever the listing is. The only message is the pipeline error. |
| `Monitor.ThresholdWithUnitFails` | lambda/tab_monitor/code/function.py:150-180 | The threshold `"15m"` sends the run to the error handler. |
| `Monitor.StaleIffEveryObjectOlder` | lambda/tab_monitor/code/function.py:158-174 | With whole-second times, a non-empty listing is decided. It is stale exactly when every object in it is older than the cutoff. This reference needs no sorting. |
| `Monitor.VerdictIgnoresListingOrder` | lambda/tab_monitor/code/function.py:158-174 | With whole-second times, two orderings of the same objects get the same stale/fresh verdict. |
| `Monitor.TwoDayBackupName` | lambda/tab_monitor/code/function.py:164 | The base name of `tableau/int/two.tsbak` is `two.tsbak`. |
| `Monitor.TwoOldBackupsAreStale` | lambda/tab_monitor/code/function.py:151-172 | Backups 10 and 2 days old with a 1440-minute threshold are stale. The alert names the 2-day-old file. |
| `Monitor.OldBackupsStaleAtDefault` | lambda/tab_monitor/code/function.py:151-172 | The backups 10 and 2 days old are also stale against the default 900 minutes, and the verdict names the 2-day-old object. |
| `Monitor.DefaultRunOnOldBackupsIsStale` | lambda/tab_monitor/code/function.py:140-172 | A whole run with `bucket_name` and `path_int_tab` set and `threshold_min` unset reaches the stale verdict on those backups. It posts one alert for 900 minutes that names `two.tsbak`. |
| `Monitor.RecentBackupIsFresh` | lambda/tab_monitor/code/function.py:151-174 | One backup 30 minutes old with the 900-minute threshold is fresh, and nothing is posted. |

## Left out

- The S3 call (`boto3.resource`, `bucket.objects.filter`) is a foreign call. It is the input `ListingReply`: the objects under the prefix in the order S3 returns them, or `Unavailable` when the call raises. The bucket name and path are only checked for presence.
- `send_message_to_slack` (SSM lookup, JSON payload, HTTP POST, swallowed errors) is network and secret-store I/O. It is modelled only as the list of `Notice`s a run asks it to post.
- `error_handler` is reduced to one abstract `PipelineError` notice. Not modelled: the console URL, the session region lookup, `sys.exit`, and its own failure path.
- Logging and the `LOG_GROUP_NAME`/`LOG_STREAM_NAME` globals are left out. They carry diagnostics only.
- The botocore retry configuration is transport behaviour and is left out.
- The clock: `datetime.now()` is the parameter `now`.
- Calendar formatting (`strftime('%Y-%m-%d')`, `str()` of a datetime) is left out. `Render` takes these formatters as parameters.
- The model assumes the process time zone is UTC, as in the Lambda runtime. So `astimezone` on the naive `now` is the identity, and `strftime('%s')` gives epoch seconds. Range errors that `astimezone` itself might raise near year 1 or year 9999 are not modelled.
- `ParseInt` handles ASCII only. Python's `int()` also accepts non-ASCII decimal digits and Unicode white space; the model rejects them.
- `ParseInt` does not model the limit on integer string conversion. Since Python 3.11, and in the security releases of 3.7 to 3.10, `int()` raises ValueError on a decimal text of more than 4300 digits. `ParseInt` and `ParseDigitsOnly` accept any length. When the value itself has that many digits, it is far outside the cutoff's range. The model then still fails the run, with `CutoffOutOfRange` in place of `BadThreshold`, and posts the same single pipeline-error message. A long run of leading zeros in front of a small value is the exception: the model accepts it, while Python rejects it.
- Negative thresholds are accepted as `int()` accepts them. The cutoff then lies in the future.
- The event payload is only logged and is not modelled.
- `tests/e2e_test.py` is a Terraform tagging test with no application logic. It is not part of this model.
