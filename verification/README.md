# IDOKEP uploader: a Dafny model

This project models the core of the weewx `IDOKEP` extension. The extension
uploads each archive record of a weather station to `pro.idokep.hu` as one
GET request. The model covers five pieces:

- the service `IDOKEP`, which either stays inert or starts its
  `IDOKEPThread` and queues every new archive record for it;
- `format_url`, which builds `server_url?user=…&pass=…&ev=…&…&tipus=…` from
  a record: 17 `key=value` pairs in a fixed order, joined by `&`;
- `_format` and its `_FORMATS` table, which render one field: an absent or
  `None` field becomes the empty string, a tabled field uses its printf
  spec, and any other field goes through `str`;
- the password-masked copy of the URL meant for the debug log;
- `check_response`, which judges the server's reply lines, and the
  `skip_upload` dry-run branch of `process_record`.

Everything the extension takes from weewx or from Python's runtime without
showing its code is a parameter. It sits in the `Host` datatype of
`IdokepThread`:

- `get_record`, the host's record pre-processing;
- `to_METRICWX`, the unit conversion;
- `time.strftime(directive, time.localtime(t))`;
- the clock reading that `time.localtime(None)` falls back to;
- printf-style rendering;
- `str`.

Record values have an abstract type `V`, so the model states ordering,
presence and string structure, never numbers. Python's string operations
(`find`, `replace`, `join`) are modelled exactly in module `Strings`. That
includes `find` returning 0 on an empty pattern and `replace` with an empty
pattern inserting the replacement around every character. Module
`QueryString` reads a URL back into its assignments. It is the reference
that the URL assembly is proved against.

Modules:

- `Wrappers`: `Option` and `Result`.
- `Strings`: the Python string operations and their lemmas.
- `QueryString`: the query-string reader.
- `IdokepThread`: `bin/user/idokep.py:134-252`.
- `Idokep`: `bin/user/idokep.py:72-131`.

The thread's constructor default `station_type='WS23XX'` can never take
effect through the service. The service's `setdefault` always supplies the
station hardware first (`Idokep.Configure`).

## Model

| member | source | states |
|---|---|---|
| `IdokepThread.Format` | bin/user/idokep.py:227-232 | computes `_format`: the empty string for an absent or `None` field, the `_FORMATS` spec for a tabled field, `str` otherwise. `FormatUrlMeasurementValue` and `FormatAgrees` state what this means for the URL |
| `IdokepThread.FormatUrlMeasurementValue` | bin/user/idokep.py:227-232 | read back from the URL, a measurement parameter keeps its key and has an empty value when the field is absent or `None`. A tabled field has its `_FORMATS` rendering, any other field `str` of its value. This holds provided no value holds `&` |
| `IdokepThread.FormatAgrees` | bin/user/idokep.py:227-232 | a field's text depends on that field of the record alone |
| `IdokepThread.Timestamp` | bin/user/idokep.py:197-201 | computes the time `localtime` is given: `record['dateTime']`, or the host clock when that entry is `None`, as `time.localtime(None)` does. `FormatUrlIgnoresClock` states its consequence |
| `IdokepThread.FormatTableCoverage` | bin/user/idokep.py:136-142 | `windGust` and `rain24` have no table entry, so they go through `str`; `dayRain` has an entry, but no query parameter reads it |
| `IdokepThread.FormatUrl` | bin/user/idokep.py:195-197 | the URL is formed exactly when the converted record has a `dateTime` key; otherwise the result is the `KeyError` that `record['dateTime']` raises |
| `IdokepThread.SchemaKeyOrder` | bin/user/idokep.py:199-216 | the parameter table lists the 17 keys in the order `user, pass, ev, ho, nap, ora, perc, mp, hom, rh, szelirany, szelero, szellokes, p, csap, csap1h, tipus` |
| `IdokepThread.Assignments` | bin/user/idokep.py:199-216 | builds the `values` list of `format_url`: the 17 `key=value` strings in source order. `AssignmentsFollowSchema` relates it to the parameter table, and `FormatUrlParses` to the URL read back |
| `IdokepThread.AssignmentsFollowSchema` | bin/user/idokep.py:199-216 | the source's straight-line `values` list is, element by element, the parameter table's `key=value` for the record |
| `IdokepThread.FormatUrlParses` | bin/user/idokep.py:199-219 | read back, the URL is `server_url?` and then the 17 parameters, in the fixed key order, each with the value the table prescribes (credentials, the six local-time fields, the eight rendered measurements, the station type), provided no value holds `&` |
| `IdokepThread.FormatUrlStartsWithCredentials` | bin/user/idokep.py:199-219 | the URL starts with `server_url?user=<username>&pass=<password>&`, with both strings inserted verbatim and not URL-encoded |
| `IdokepThread.FormatUrlEndsWithStation` | bin/user/idokep.py:216-219 | the URL ends with `&tipus=<station_type>`, with the station type verbatim |
| `IdokepThread.MissingFieldKeepsItsKey` | bin/user/idokep.py:208-218 | an absent or `None` measurement keeps its key in place: the URL contains `&key=&` |
| `IdokepThread.FormatUrlReadsOnlyItsFields` | bin/user/idokep.py:193-219 | the same settings and two records whose converted forms agree on `dateTime` and on the eight requested fields give the same URL; every other field, `dayRain` included, is ignored |
| `IdokepThread.FormatUrlIgnoresClock` | bin/user/idokep.py:197-201 | when the record carries a timestamp, the URL does not depend on the clock, so forming it again later gives the same URL |
| `IdokepThread.DebugUrl` | bin/user/idokep.py:223 | computes `url.replace(password, 'XXX')`. The three `DebugUrl…` lemmas state what the masking does and does not achieve |
| `IdokepThread.DebugUrlHidesPassword` | bin/user/idokep.py:221-223 | for a non-empty password without `X`, the masked debug URL contains no occurrence of the password |
| `IdokepThread.DebugUrlWithoutPassword` | bin/user/idokep.py:223 | a URL that does not contain the password is logged unchanged |
| `IdokepThread.DebugUrlEmptyPassword` | bin/user/idokep.py:223 | with an empty password, `replace` inserts `XXX` at all len(url)+1 places, so the debug URL grows by 3·(len(url)+1) characters |
| `IdokepThread.DebugUrlKeepsXPassword` | bin/user/idokep.py:223 | a password made of `X` survives masking, since the mask contains it: `pass=X` is logged as `pass=XXX`, which still contains the password |
| `IdokepThread.ErrorFlag` | bin/user/idokep.py:235-238 | after the loop, the flag is still set iff it started set and every line starts with `sz!`; `find` gives its one falsy result, 0, only for a prefix match |
| `IdokepThread.CheckResponse` | bin/user/idokep.py:234-240 | the reply is rejected, and so logged as an error, iff every line starts with `sz!`; this includes the empty reply |
| `IdokepThread.CheckResponseInverted` | bin/user/idokep.py:236-238 | `["error: bad user"]` and `["OK sz!thanks"]` are accepted; `["sz!"]` and `[]` are rejected |
| `IdokepThread.CheckResponseIntended` | bin/user/idokep.py:234-240 | corrected check: the reply is rejected iff no line contains `sz!` anywhere |
| `IdokepThread.CheckResponseIntendedReads` | bin/user/idokep.py:234-240 | the corrected check rejects `["error: bad user"]` and `[]`, and accepts `["OK sz!thanks"]` and `["sz!"]` |
| `IdokepThread.ProcessRecord` | bin/user/idokep.py:243-251 | the URL is formed first, so its `KeyError` escapes even in dry-run mode; a request, carrying exactly that URL, is built iff `skip_upload` is off |
| `IdokepThread.ProcessAll` | bin/user/idokep.py:124-131 | records are processed in arrival order, one outcome per record |
| `IdokepThread.Requests` | bin/user/idokep.py:249-251 | collects the requests handed to `post_with_retries` from the outcomes, in order. `SkipUploadSendsNothing` and `OneRequestPerRecord` state what it yields |
| `IdokepThread.SkipUploadSendsNothing` | bin/user/idokep.py:246-248 | with `skip_upload` set, no number of records produces a request |
| `IdokepThread.OneRequestPerRecord` | bin/user/idokep.py:249-251 | without `skip_upload`, records that format give exactly one request each, carrying its own URL, in arrival order |
| `Strings.Find` | bin/user/idokep.py:237 | `str.find` gives -1 iff the marker does not occur; otherwise it gives the lowest index at which it occurs |
| `Strings.FindIsZeroIffPrefix` | bin/user/idokep.py:237 | `find` gives 0 iff the line starts with the marker |
| `Strings.Replace` | bin/user/idokep.py:223 | computes Python's `str.replace`: a left-to-right scan replacing non-overlapping matches. An empty pattern inserts the replacement before every character and at the end. The `Replace…` and `InsertEverywhereLength` lemmas state its behaviour |
| `Strings.ReplaceLeavesNoOccurrence` | bin/user/idokep.py:223 | `str.replace` with a non-empty pattern, and a non-empty replacement that shares no character with it, leaves no occurrence of the pattern |
| `Strings.ReplaceAbsent` | bin/user/idokep.py:223 | `str.replace` of a pattern that does not occur returns the string unchanged |
| `Strings.InsertEverywhereLength` | bin/user/idokep.py:223 | `str.replace` with an empty pattern adds the replacement len(s)+1 times |
| `Strings.Join` | bin/user/idokep.py:218 | computes Python's `sep.join(parts)`. `SplitJoin` and `JoinSplit` pair it with `Split`, and the `Join…` lemmas locate its elements |
| `Strings.JoinSplit` | bin/user/idokep.py:218 | splitting a string on a separator and joining the parts back with it restores the string |
| `Strings.SplitJoin` | bin/user/idokep.py:218 | `'&'.join` of parts that contain no `&` splits back into exactly those parts |
| `Strings.JoinSurroundsInner` | bin/user/idokep.py:218 | every inner element of a joined list has the separator on both sides |
| `Strings.JoinEndsWithLast` | bin/user/idokep.py:218 | in a joined list of two or more, the last element comes last, preceded by the separator |
| `Strings.JoinStartsWithFirstTwo` | bin/user/idokep.py:218 | a joined list of three or more starts with its first two elements, each followed by the separator |
| `QueryString.Assign` | bin/user/idokep.py:199 | computes `"{0}={1}".format(key, value)`. `SplitAssign` is its inverse |
| `QueryString.SplitAssign` | bin/user/idokep.py:199 | a `"{0}={1}".format(key, value)` pair whose key has no `=` splits back into that key and value, whatever the value holds |
| `QueryString.ParseJoin` | bin/user/idokep.py:218-219 | `base?` followed by `&`-joined assignments parses back into those assignments, provided no value holds `&` |
| `QueryString.AmpersandInValueSplitsIt` | bin/user/idokep.py:199-219 | a value `v1&k2=v2`, inserted without encoding, reads back as two parameters, `key=v1` and `k2=v2`. This is why `ParseJoin` and `FormatUrlParses` need values free of `&` |
| `Idokep.NewThread` | bin/user/idokep.py:144-186 | computes the `IDOKEPThread` constructor's settings. An unset station type becomes `'WS23XX'`, an unset server URL the IDOKEP Pro address, and an unset `skip_upload` false. `Configure` shows that the `'WS23XX'` default is never reached |
| `Idokep.Configure` | bin/user/idokep.py:114-125 | there is a thread iff `get_site_dict` yields a dictionary. The thread gets the configured credentials verbatim, the configured station type or else the station hardware, the default server URL when none is set, and `skip_upload` off unless it is set |
| `Idokep.Start` | bin/user/idokep.py:113-126 | the service is inert exactly when there is no thread; otherwise the thread is started with an empty queue |
| `Idokep.NewArchiveRecord` | bin/user/idokep.py:130-131 | computes `new_archive_record`: an active service appends the record to its queue, and an inert one, never bound, is unchanged |
| `Idokep.Deliver` | bin/user/idokep.py:127-131 | computes one `NEW_ARCHIVE_RECORD` event per record, in order. `DeliverQueuesInOrder` states the result |
| `Idokep.DeliverQueuesInOrder` | bin/user/idokep.py:127-131 | an inert service, having no binding, ignores every record; an active one queues all records in arrival order and keeps its thread |
| `Idokep.Uploads` | bin/user/idokep.py:124-131 | the requests that a service started from the configuration hands to the host for the delivered records. The thread works through its queue front to back. The three service lemmas below state what it yields |
| `Idokep.InertServiceUploadsNothing` | bin/user/idokep.py:114-117 | a service disabled at start-up never issues a request |
| `Idokep.SkipUploadServiceUploadsNothing` | bin/user/idokep.py:243-248 | a service configured with `skip_upload` never issues a request |
| `Idokep.ActiveServiceUploadsEveryRecord` | bin/user/idokep.py:124-131 | an enabled service without `skip_upload` issues one request per delivered record that formats, with that record's URL, in arrival order |

## Findings

In `check_response`, `error = True` is cleared only by a test for the
marker `sz!`. A reply left with the flag set is logged as an error,
"Server returned …". So the marker is what signals success. The test
`if line.find('sz!'):`, however, is true exactly when the marker is not at
the start of the line. `CheckResponse` follows the code as written.
`CheckResponseIntended` gives the reading in which a line containing the
marker anywhere clears the flag.

| source | as written | input that shows it | evidently intended | confidence | as-written member | corrected member |
|---|---|---|---|---|---|---|
| bin/user/idokep.py:237 | `if line.find('sz!'):` is truthy for -1, so a line without the marker clears the error flag, while a line that starts with the marker leaves it set | `["error: bad user"]` is accepted and `["sz!"]` is rejected | clear the error flag when some line contains `sz!` (`find(...) != -1`) | high; not executed | `IdokepThread.CheckResponseInverted` | `IdokepThread.CheckResponseIntended` |

## Left out

- `install.py` is a packaging descriptor with no behaviour.
- Unit conversion (`weewx.units.to_METRICWX`), `time.localtime` with `time.strftime`, `%.1f`/`%.0f`/`%.2f` rendering and `str` are host and floating-point behaviour. They are the uninterpreted `Host` parameters. Because rendering is uninterpreted, no lemma fixes the URL of a concrete record, and nothing states that a present field renders to a non-empty string.
- FormatUrl: the host operations (`to_METRICWX`, `localtime` with `strftime`, `%`-formatting, `str`) are assumed not to raise. They are total functions in `Host`. So "exactly when `dateTime` is missing" holds under that assumption. Any exception they could raise is not modelled, for example the `TypeError` of `'%.1f' % <non-number>` at line 230.
- The `time.gmtime` call at line 197 has a dead result. It is not modelled. Its only effect, the `KeyError` on a missing `dateTime`, is the same one `FormatUrl` models.
- HTTP dispatch is not modelled: `urllib.request.Request`, the `User-Agent` header, `post_with_retries`, timeouts, retry and back-off. A dispatched request is the `Request` value that `process_record` would hand over.
- The host's `RESTThread` run loop is not modelled: staleness filtering, backlog trimming, and what it does when `process_record` raises. `ProcessAll` gives each record's own outcome.
- Queue and thread wiring (`queue.Queue`, `start`, `bind`) is concurrency. It is modelled only as an in-order queue held by the active service.
- Logging is not modelled. This covers the `loginf` lines, and the `logerr` text beyond the rejected reply's message. It also covers `logdbg('IDOKEP: url: %s', …)` at line 223, which passes two arguments to a one-argument `logdbg`. With `weewx.debug >= 2` that call would raise `TypeError` inside `format_url`. The model has no debug level: `DebugUrl` is the string that line means to log.
- `get_site_dict`, `get_manager_dict_from_config` and `to_bool` are weewx helpers whose source is not part of this model. `SiteDict` holds their already-parsed result. `manager_dict` is not kept. `IDOKEPThread.__init__` passes it to `RESTThread` (line 170), and the host opens the archive database from it. It hands that database back as `archive` to `get_record` (lines 188-190, 244). `Host.getRecord` takes the record alone, so whatever the database contributes is folded into that one fixed function.
- Configuration keys that `IDOKEPThread.__init__` does not accept would make `IDOKEPThread(**site_dict)` raise `TypeError`. That is not modelled.
- ActiveServiceUploadsEveryRecord: "one request per delivered record" holds for the modelled queue only. The host's run loop also applies `post_interval=300` (line 146, passed on at line 171), together with `stale` and `max_backlog`. That loop can skip records, and it is not part of this model.
- `check_response` is modelled over the reply as a sequence of decoded text lines (`seq<string>`). The host passes its own reply object, whose type the uploader's code does not show. Iterating over it is taken to yield the reply's lines as strings.
- CheckResponse: the contract states when a reply is rejected, not the text of the error line logged for it. The info-level line about every reply is left out.
