# metricscat agent and server core, modelled in Dafny

metricscat is a small metrics and logs collector. An agent gathers data on a host and posts it to a server, which stores it in Postgres and answers range queries. This project models four pieces of it and proves properties about them.

- **Log tailer** (`src/agent.rs`). A spawned tokio job tails each log file. It keeps two fields:
  - `offset`, the bytes already sent;
  - `last_modified`, the file's modification time when it was last seen.

  Each poll pass does the following:
  - reopens the file; a failed open ends the tailing loop for good;
  - seeks to the offset; a failed seek reads from byte 0 instead;
  - reads lines until a read returns 0 bytes, where a failed read counts as 0;
  - sends each line as a `LogLine`;
  - at end of file applies the rotation rule: a recorded time strictly older than the file's resets the offset to 0.
- **Custom metrics over UDP** (`src/agent.rs`). `process_metric` decodes a datagram of the form `name:value|…` into one metric. It receives the datagram in a zero-filled 512-byte buffer.
- **Metric ingestion** (`src/server.rs`, `api_metrics_post`). Each metric name in a batch is resolved to an id:
  - one lookup of the names already stored;
  - one conflict-guarded insert for each name still missing.

  Then one row per metric is written, all stamped with the same time.
- **Metric query** (`src/server.rs`, `api_metrics_get`). This covers three steps:
  - resolving the time range from the optional interval and bounds;
  - selecting the named metric's rows strictly inside that range, in ascending time;
  - copying them into points.

The modules are:

| module | file | contents |
|---|---|---|
| `Wrappers` | `wrappers.dfy` | `Option` |
| `Utf8` | `utf8.dfy` | Rust's lossy UTF-8 decoding (`String::from_utf8_lossy`) and UTF-8 encoding, with the round trips between them |
| `Text` | `text.dfy` | `str::trim`, `str::split` on one character, character counts |
| `FloatSyntax` | `float_syntax.dfy` | the grammar `str::parse::<f64>` accepts |
| `Agent` | `agent.dfy` | the agent's records, the receive buffer and `process_metric` |
| `MetricPadding` | `agent_padding.dfy` | what the zero padding of the receive buffer does to `process_metric` (see Findings) |
| `Tailer` | `tailer.dfy` | the tailer as a class with a `Pass` method, and the functional specification it is proved against |
| `ServerIngest` | `server_ingest.dfy` | name resolution and the rows written by `api_metrics_post` |
| `ServerQuery` | `server_query.dfy` | range resolution, row selection and ordering, and the points returned by `api_metrics_get` |

Modelling choices:
- Timestamps are integers:
  - a file's modification time is opaque and only compared;
  - server times are whole seconds, and a chrono duration of one minute is 60.
- `f64` values are reals. The value of an accepted literal is the parameter `toF64`; only the set of accepted literals is modelled.
- The timestamp parse of `api_metrics_get` is a parameter `parse: string -> Option<int>`, and `to_string` on a timestamp is a parameter `show`.
- A file as one pass sees it is a `Poll`:
  - its open result;
  - its bytes and modification time;
  - whether the seek succeeds;
  - which read, if any, reports an I/O error.
- The database is modelled as values:
  - the `metric_names` table is a `NameTable` (a map from name to id, plus the next id its sequence hands out);
  - the `metrics` table is a sequence of `Stored` rows;
  - the lookup's failure is a flag;
  - the names whose insert fails are a set.

What the code does and does not do, as modelled:
- Each log line is sent on its own. There is no batching and no multi-line reassembly.
- `api_metrics_get` has no bucketing or aggregation.
- Interval values are the enum's variant names (`Minute1`, …).
- `api_metrics_get` selects strictly inside the range, so a row stamped exactly at the start or the end is not returned.

## Model

| member | source | states |
|---|---|---|
| Agent.Received | src/agent.rs:45 | The count `recv_from` stores is at most 512 and at most the datagram's length. It is the whole datagram when the datagram is shorter than the buffer. |
| Agent.ReceiveBuffer | src/agent.rs:44-45 | The buffer is always 512 bytes: the received bytes followed by the zeros it was created with. |
| Utf8.DecodeLossy | src/agent.rs:192 | `from_utf8_lossy` never yields more characters than there are bytes. |
| Utf8.DecodeAscii | src/agent.rs:192 | ASCII bytes decode to one character per byte, unchanged. |
| Utf8.DecodeEncode | src/agent.rs:131-133 | Encoding any text gives valid UTF-8, and decoding it gives the text back. |
| Utf8.EncodeDecodeValid | src/agent.rs:131-143 | For valid UTF-8 (what `read_line` accepts into a `String`), encoding the decoded text gives back exactly the bytes. |
| Text.TrimStart | src/agent.rs:192 | Drops exactly the longest leading run of Unicode whitespace. The result is a suffix that does not start with whitespace. |
| Text.TrimEnd | src/agent.rs:192 | Drops exactly the longest trailing run of Unicode whitespace. The result is a prefix that does not end with whitespace. |
| Text.Count | src/agent.rs:194-195 | Counts the occurrences of a character. It is 0 exactly when the character is absent. |
| Text.Split | src/agent.rs:194-195 | Gives one more part than separators. No part holds the separator, the parts joined with it give the text back, and the first part runs up to the first separator. |
| FloatSyntax.RustFloatHasNoNul | src/agent.rs:200 | No literal `f64` accepts contains a NUL character. |
| FloatSyntax.DecimalIsFloat | src/agent.rs:200 | Digits, a point and digits form an accepted literal. |
| Agent.MetricFromText | src/agent.rs:194-209 | A metric is produced exactly when the text before the first `|` has exactly one `:`. Its name is the part before the `:` and has no `:`. Its value is the parsed value text, or 0.0 when that does not parse. Its tags are empty. |
| Agent.ProcessMetric | src/agent.rs:191-211 | Over the lossy, trimmed text of a buffer: one metric exactly when the first `|`-segment has one `:`. The name contains neither `:` nor `|`, and the tags are empty. |
| Agent.HandleDatagram | src/agent.rs:44-50 | As written, the whole buffer is decoded. A metric still has empty tags and a name without `:` or `\|`. A datagram that fills the buffer is decoded exactly as the fixed handling decodes it. |
| Agent.HandleDatagramFixed | src/agent.rs:44-50 | Decoding only the `n` received bytes gives `process_metric` of the datagram itself. |
| Agent.IgnoresTextAfterPipe | src/agent.rs:194-195 | Text after the first `|` never changes the decoded metric. |
| Agent.NameValue | src/agent.rs:195-206 | A name and a value without `:` or `|` around one `:` decode to exactly that name, the value's parse (0.0 if it fails) and empty tags. |
| MetricPadding.PaddedText | src/agent.rs:44-50 | The text `process_metric` sees for an ASCII datagram is the datagram's characters followed by NULs, 512 characters in all. |
| MetricPadding.TrimBeforeNul | src/agent.rs:192 | `trim` keeps a trailing NUL, since NUL is not whitespace. |
| MetricPadding.NulEndedValue | src/agent.rs:195-200 | A metric from text ending in NUL and without `|` always has value 0.0. |
| MetricPadding.PaddingZeroesValue | src/agent.rs:44-50 | As written: any metric decoded from an ASCII datagram without `|` that is shorter than the buffer has value 0.0. |
| MetricPadding.CpuLoadAsWritten | src/agent.rs:44-50 | As written, the datagram `cpu.load:42.5` is sent as `cpu.load` with value 0.0. |
| MetricPadding.CpuLoadFixed | src/agent.rs:191-211 | Decoding only the received bytes sends `cpu.load` with the value of `42.5`. |
| Tailer.LineEnd | src/agent.rs:132 | The line `read_line` takes from a position ends after that position and no later than the end of the file. |
| Tailer.LineEndShape | src/agent.rs:132 | That line has no newline before its last byte. Its last byte is a newline, or it reaches the end of the file. |
| Tailer.ReadCount | src/agent.rs:132-138 | The count is 0 exactly at end of file, on the read that reports an I/O error, or on a line that is not UTF-8. Otherwise it is the length of the line at the position. |
| Tailer.LinesFromStops | src/agent.rs:130-140 | A pass reads on until the end of the file, the read that fails, or a line that is not UTF-8; it never stops earlier. |
| Tailer.LinesFromReadable | src/agent.rs:130-140 | Every line a pass reads is non-empty and valid UTF-8. |
| Tailer.LinesFromContiguous | src/agent.rs:130-153 | The lines a pass reads are the file's bytes from where reading started, one after the other, with no gap. |
| Tailer.ToLogLinesShape | src/agent.rs:140-152 | One record per line read, in order. Each has the line's text, no level, no creation time and the single tag `filename` = path. |
| Tailer.SentTextEncodesLines | src/agent.rs:131-152 | The texts sent, encoded back to UTF-8, are exactly the bytes read. |
| Tailer.DrainLines | src/agent.rs:130-172 | The read loop's position, recorded time and sent records equal those computed from the sequence of lines read. |
| Tailer.EofRule | src/agent.rs:157-170 | At end of file the offset becomes 0 exactly when a recorded time is strictly older than the file's; otherwise it is unchanged. The recorded time becomes the later of the two (the file's when none was recorded). |
| Tailer.PassOutcome | src/agent.rs:116-173 | For a running tailer and a file that opens, one pass does four things. It sends one record per line read, in order, with the fixed fields. The texts sent encode back to the bytes read, which are the file's bytes from the start position. A pass that reads lines advances the offset by exactly their bytes and records the file's time, with no rewind. A pass that reads none applies only the end-of-file rule. Reading stops only at the end of the file, the failing read, or a line that is not UTF-8. |
| Tailer.QuietWhenUnchanged | src/agent.rs:157-171 | A pass at or past the end of a file whose time has not moved sends nothing and changes nothing. |
| Tailer.TruncationRereads | src/agent.rs:158-164 | A file no longer than the offset (cut, or only touched) with a newer time is taken as rotated: nothing is sent, the offset becomes 0, and the next pass sends the file from its first line. |
| Tailer.InvalidLineRewinds | src/agent.rs:130-171 | A line that is not UTF-8 ends the pass like end of file. Once the file's time has moved on, the rotation rule rewinds the offset to 0. |
| Tailer.StoppedForGood | src/agent.rs:176-179 | A stopped tailer never sends again and never changes, whatever later passes find. |
| Tailer.OpenFailureIsFinal | src/agent.rs:116-183 | After a failed open, nothing more is ever sent. |
| Tailer.Tailer.constructor | src/agent.rs:110-111 | A new tailer starts at offset 0, with no recorded time, running. |
| Tailer.Tailer.AtEndOfFile | src/agent.rs:157-170 | Applies the end-of-file rule to the fields in place. |
| Tailer.Tailer.ReadLines | src/agent.rs:130-156 | The read loop, run on the fields in place, stops at the first 0-byte read. It leaves the offset, the recorded time and the records sent that `Tailer.Drain` computes, which `Tailer.DrainLines` ties to the lines read. |
| Tailer.Tailer.ReadToEnd | src/agent.rs:130-173 | The read loop followed by the end-of-file rule leaves the state and sends the records that the specification of a pass computes. |
| Tailer.Tailer.Pass | src/agent.rs:116-180 | One pass, run in place, leaves the state and sends the records that `Tailer.Next` gives. |
| ServerIngest.Names | src/server.rs:30 | The batch's names, one per metric, in input order. |
| ServerIngest.Matching | src/server.rs:31-39 | The lookup returns each stored name of the batch once, with its stored id, and nothing else. |
| ServerIngest.InsertName | src/server.rs:49-59 | The insert yields a nonzero id exactly when the name is not stored and the statement does not fail. A nonzero id is fresh and stored under the name. Otherwise the id is 0 and the table is unchanged. |
| ServerIngest.FillFromRows | src/server.rs:41-45 | Every lookup row's name is in the map, and every map entry is a lookup row. |
| ServerIngest.InsertMissing | src/server.rs:47-63 | After the second loop: every batch name has an entry. Names the lookup returned keep their stored ids and get no insert. Every other name gets exactly one insert, and its id is 0 exactly when that insert failed or met a stored name. The table gains exactly the names inserted. |
| ServerIngest.PostMetrics | src/server.rs:30-77 | The same resolution for the whole handler. Rows are one per metric, in input order: the name's resolved id, the metric's value, and the same `now` for all. |
| ServerIngest.ResolvedIds | src/server.rs:39-65 | A nonzero resolved id is the name's id in the table afterwards, so no two names share one. When the lookup failed, every name already stored is written with id 0. |
| ServerQuery.Span | src/server.rs:97-104 | Each interval reaches back its own duration: 1, 5 and 15 minutes, 1 and 4 hours, and 1 day, and no two intervals share one. |
| ServerQuery.RangeStart | src/server.rs:93-105 | A parsable start is used as given, and an unparsable one is `now`. Without a start, the range starts at `now` minus the interval's duration, one minute when no interval is given. |
| ServerQuery.RangeEnd | src/server.rs:107-112 | A parsable end is used as given. A missing or unparsable end is `now`. |
| ServerQuery.Select | src/server.rs:114-123 | Keeps exactly the stored rows of the named metric recorded strictly inside the range, each as many times as it is stored. |
| ServerQuery.SortByTime | src/server.rs:122 | The same rows, as a multiset, in ascending time. |
| ServerQuery.Query | src/server.rs:114-129 | The rows returned are, as a multiset, exactly the selected rows, in ascending time. A row is returned exactly when it is stored and selected. |
| ServerQuery.ToPoints | src/server.rs:131-137 | One point per row, in order, with the row's value and its time as text. |
| ServerQuery.MetricsGet | src/server.rs:84-139 | The whole handler: one point for each row the query selects in the resolved range. |
| ServerQuery.PointsAnswer | src/server.rs:114-139 | For any range, the points of the rows the query returns answer it: one per selected row, each a stored row of the named metric strictly inside the range, in ascending time. |
| ServerQuery.MetricsGetAnswer | src/server.rs:91-139 | The answer has one point per selected row. Each point is a stored row of the named metric strictly inside the resolved range, and the points are in ascending time. |
| ServerQuery.EmptyRange | src/server.rs:120-121 | A range with no instant strictly inside it selects nothing. |
| ServerQuery.UnparsableStartAnswersNothing | src/server.rs:93-112 | An unparsable start, with a missing or unparsable end, gives the range (now, now) and so an empty answer. |
| ServerQuery.DefaultRange | src/server.rs:97-139 | Without bounds, the answer has one point per selected row of the window from `now` minus the interval (one minute by default) to `now`. Each point is a stored row of the named metric strictly inside that window, and the points are in ascending time. |

## Left out

- Sending (`send_metrics`, `send_logs`, src/agent.rs:213-290) is left out: HTTP through reqwest, the URL from the environment, and panics on failure. A pass returns the records it would send, in order.
- The commented-out mTLS block in `send_metrics` is dead code.
- The UDP socket loop, spawning of concurrent jobs and the one-second sleep between passes (src/agent.rs:36-53, 182) are concurrency and timing. The model takes one datagram or one pass at a time; `Tailer.Run` strings passes together.
- System metrics sampling (src/agent.rs:56-99) is a foreign `sysinfo` call plus floating-point averaging.
- The `unwrap` on the file's metadata and modification time (src/agent.rs:120) is not modelled. The time is an input of the pass, and the panic when the platform has none is not represented.
- Tailer.Tailer.Pass: does not model the 64-bit wrap-around of `offset += n as u64`, because a file would need 2^64 bytes to reach it.
- The `println!` logging is not modelled: the messages on receiving a datagram, a failed seek, a failed read and a failed open (src/agent.rs:47, 125, 135, 177) have no effect on what is sent.
- The log path list (src/agent.rs:103-106) is not modelled: each tailer is given its path.
- `f64` arithmetic and rounding are not modelled. Only which literals parse is, and an accepted literal's value is the parameter `toF64`.
- The timestamp parse and `to_string` of chrono's `NaiveDateTime` are parameters. Timestamps are whole seconds, so sub-second instants are not modelled.
- SQL execution, transactions and races between concurrent requests are not modelled. The tables are values passed in and returned.
- The database's row order for the lookup and for rows recorded at the same instant is not modelled. The model takes batch order and table order.
- The final `INSERT INTO metrics` (src/server.rs:69-80) is modelled only as the rows it writes. Its `unwrap`, which panics when the statement fails, is not modelled, nor is the `unwrap` on the query in `api_metrics_get`.
- Rocket's request parsing (JSON bodies, query parameters into `Interval`) is not modelled, nor is `index` (src/server.rs:23-26), which returns a constant.
- src/main.rs (process wiring) and metricscat-frontend/src/App.js (the web UI) are not part of this model.

## Findings

| source | as written | input that shows it | evidently intended | confidence | as-written member | corrected member |
|---|---|---|---|---|---|---|
| src/agent.rs:44-50 | The whole 512-byte zero-filled buffer goes to `process_metric`. Its `trim` keeps the NUL padding, so the value text ends in NULs, never parses, and the value becomes 0.0 for any ASCII datagram shorter than 512 bytes without `\|`. | the datagram `cpu.load:42.5` | Decode only the `n` bytes received (`buf[..n]`), so the value is 42.5. | not executed | MetricPadding.CpuLoadAsWritten | MetricPadding.CpuLoadFixed |

Because of the padding, text after a `|` does matter at the level of datagrams: `a:1|x` ends its value text at the `|` and is sent with the value 1.0, while `a:1` is sent with 0.0. `Agent.IgnoresTextAfterPipe` holds for the trimmed text that `process_metric` splits, not for the raw datagram.
