# recontools, the sequential core

recontools is a set of Python reconnaissance scripts:

- a threaded TCP port scanner (`minscanner.py`);
- a browser-driven page scanner that collects custom HTML tags and attributes (`tools/ctf_scanner.py`);
- three passive-recon scripts that query crt.sh, the Wayback Machine CDX index and DNS (`recon1.0.py`, `passive_recon1.py`, `passive_recon.py`).

Almost all of it is network, browser, thread and file glue. This project models the sequential rules inside that glue and proves what they guarantee:

- **PortScanner** (`minscanner.dfy`), for the port scanner's loop in `main`:
  - Starting and joining a worker are events of a trace.
  - `Dispatch` is the loop itself, written as a loop over `range(start, end + 1)`. It keeps `thread_list` and resets it after each join. It is proved to produce `Schedule(start, end, threads)`: the ports cut into groups of `max(threads, 1)`, each group started and then joined.
  - The lemmas show that:
    - every port is started and joined exactly once, in order;
    - the group sizes are as the `>=` test makes them;
    - no more than `max(threads, 1)` workers are ever started and not yet joined.
  - `scan` and `banner_grab` take the socket outcomes and the UTF-8 decoder as inputs. The open-port line they print is read back by an independent parser.
- **CtfScanner** (`ctf_scanner.dfy`), the page scanner's sequential rules:
  - `safe_filename`;
  - the `read_urls` filter;
  - the custom tag and attribute rules of the extraction script, over element and attribute names;
  - the first-occurrence merge of page and shadow-root tags;
  - the CSV row built by `save_outputs`.
- **Recon** (`recon.dfy`), from `recon1.0.py`:
  - `safe_str`, with Python's `str()` as a parameter;
  - the recursive `clean` over a small Python value type, proved to always give a JSON-ready value and to be idempotent;
  - `normalize_domain`, as its loop over the two schemes;
  - the crt.sh, Wayback and IPv6 results once the reply is known.
- **PassiveRecon1** (`passive_recon1.dfy`): the same three lookups as `passive_recon1.py` does them. Its crt.sh filter tests the raw piece and indexes `name_value`. Its Wayback list is cut at 30. Its IPv6 list stays a list when empty.
- **PassiveRecon** (`passive_recon.py`'s two printing functions, `passive_recon.dfy`): the lines `get_crtsh_subdomains` and `get_wayback_urls` print, for every kind of reply.
- **Shared modules**:
  - **Lookups** (`lookups.dfy`): the nested crt.sh loop, the Wayback set and the IPv6 filter, which the three recon scripts share.
  - **Text** (`text.dfy`): `str.strip`, `in`, `split`, `join`, `str(int)` and Python's string order.
  - **Lists** (`lists.dfy`): `dict.fromkeys` de-duplication, `sorted` and `list` of a set, and the `[:k]` slice.
  - **Py** (`py.dfy`): the value and reply types.
  - **Wrappers** (`wrappers.dfy`): `Option`.

An HTTP reply is the datatype `Reply`. It is either no reply (the request raised), or a status code with a body that `r.json()` either decoded or rejected. A crt.sh entry is an object, with or without a string `name_value`, or something the loop raises on.

Points where the code behaves in a way that is easy to miss, which the model follows:

- The port scanner does not validate `start <= end`, `threads >= 1` or `timeout > 0`. An empty range simply starts no worker, and `threads <= 0` gives groups of one port.
- The open-port line is `[+] Port <n> OPEN  ` with two spaces, followed by `| <banner>` only when the banner is non-empty. This is the line the code prints.

## Model

| member | source | states |
|---|---|---|
| PortScanner.Range | minscanner.py:51 | `range(start, end + 1)`: `end - start + 1` ports (none when `end < start`), the k-th being `start + k` |
| PortScanner.Capacity | minscanner.py:57 | the group size the `>=` test produces: `threads` when it is at least 1, otherwise 1 |
| PortScanner.StartAll | minscanner.py:52-54 | one `Start` event per port, in port order |
| PortScanner.JoinAll | minscanner.py:58-59 | one `Join` event per port, in list order |
| PortScanner.Dispatch | minscanner.py:50-64 | the start/join trace of the loop, with its in-loop joins and the final join, is exactly `Schedule(start, end, threads)` |
| PortScanner.StartStep | minscanner.py:52-54 | appending and starting a port without reaching `threads` keeps the loop invariant (joined groups + outstanding list = ports seen) |
| PortScanner.JoinStep | minscanner.py:57-60 | when the list reaches `threads`, joining it and resetting it to `[]` keeps the loop invariant, with one more full group |
| PortScanner.FinalJoin | minscanner.py:63-64 | joining the leftover list after the loop completes the schedule of all groups |
| PortScanner.CloseGroup | minscanner.py:57-64 | a group of at most `b` ports closed after full groups is the next batch, and its starts and joins extend the schedule |
| PortScanner.FullGroupsAppend | minscanner.py:57-60 | a full group appended to whole groups leaves whole groups |
| PortScanner.BatchesAppend | minscanner.py:57-64 | cutting whole groups followed by a group of 1..b ports yields the earlier groups followed by that group |
| PortScanner.RunAppend | minscanner.py:52-64 | the schedule of one more group is the old schedule followed by that group's starts and then its joins |
| PortScanner.StartedJoinedConcat | minscanner.py:52-64 | the started and joined ports of two traces in a row are those of each, concatenated |
| PortScanner.StartAllProjections | minscanner.py:52-59 | starting a list starts exactly those ports and joins none; joining it joins exactly those and starts none |
| PortScanner.RunProjections | minscanner.py:52-64 | in a schedule, the started ports and the joined ports are both the groups concatenated |
| PortScanner.BatchesFlatten | minscanner.py:51-64 | the groups together are the ports, in order |
| PortScanner.EveryPortOnce | minscanner.py:51-54 | every port of the range is started exactly once, in increasing order, and joined exactly once, in the same order |
| PortScanner.EmptyRange | minscanner.py:37-44 | with `start > end` no worker is started or joined, and nothing rejects the range |
| PortScanner.BatchSizes | minscanner.py:57-64 | there is a group exactly when there is a port; every group but the last has `b` ports, and the last 1..b; together they hold every port |
| PortScanner.ScheduleBatches | minscanner.py:57-64 | groups of `max(threads, 1)` ports, only the final one possibly shorter; the final one is full exactly when the port count is groups × size |
| PortScanner.NonPositiveThreads | minscanner.py:57 | with `threads <= 0` every group holds one port |
| PortScanner.GroupPrefixes | minscanner.py:52-60 | within one group's starts and joins, joins follow starts in order and at most `b` workers are outstanding |
| PortScanner.RunPrefixes | minscanner.py:50-64 | at every prefix of a schedule of groups of at most `b`, joined ports are a prefix of started ports and at most `b` are outstanding |
| PortScanner.AfterGroup | minscanner.py:57-60 | a completed group in front of a trace does not change what is outstanding |
| PortScanner.InFlightBound | minscanner.py:50-64 | at no point are more than `max(threads, 1)` workers started and not joined, and at the end every started worker is joined |
| PortScanner.Recv | minscanner.py:14 | `recv(1024)`: at most 1024 bytes, a prefix of the waiting ones, all of them when there are at most 1024 |
| PortScanner.BannerGrab | minscanner.py:9-19 | raises exactly when `socket.socket()` fails (`s` is unbound, so `s.close()` in `finally` raises); `""` when connecting, receiving or decoding fails; otherwise the stripped decoded text; a returned banner is never surrounded by whitespace |
| PortScanner.ReportLine | minscanner.py:29 | the line starts with `[+] Port <port> OPEN  `, and the parser reads back exactly the port and the banner (`| banner` present only for a non-empty banner) |
| PortScanner.ReportLineParses | minscanner.py:29 | parsing `[+] Port ` + `str(port)` + ` OPEN  ` + optional `| banner` gives back the port and the banner |
| PortScanner.SplitReport | minscanner.py:29 | the report line splits at the first space after the prefix into the port digits, ` OPEN  ` and the banner part |
| PortScanner.IndexOf | minscanner.py:29 | the first position of a character (or the length): nothing before it is that character |
| PortScanner.Scan | minscanner.py:21-33 | a line is printed exactly when `connect_ex` returned 0 and `banner_grab` returned (its `socket.socket()` did not raise), and that line parses back to the port and the grabbed banner; any other code or an exception prints nothing |
| CtfScanner.Substitute | tools/ctf_scanner.py:99-100 | `re.sub` with the class: same length, each class character replaced by one `_`, every other character kept in place |
| CtfScanner.SafeFilename | tools/ctf_scanner.py:98-103 | length `min(len(url), 200)`, and position by position the substituted character of `url` |
| CtfScanner.SafeFilenameIsSafe | tools/ctf_scanner.py:99-100 | no character of the result is `: \ / < > \| ? " *` or whitespace |
| CtfScanner.SafeFilenameIdempotent | tools/ctf_scanner.py:98-103 | applying `safe_filename` to its own result changes nothing |
| CtfScanner.ReadUrls | tools/ctf_scanner.py:245-248 | at most one URL per line; each is non-empty, does not start with `#` and has no surrounding whitespace |
| CtfScanner.ReadUrlsMembers | tools/ctf_scanner.py:247 | a URL is returned exactly when it is the stripped form of a line that is not blank and not a `#` comment |
| CtfScanner.ReadUrlsConcat | tools/ctf_scanner.py:247 | the filter keeps file order: the URLs of two parts of a file are those of the first part followed by those of the second |
| CtfScanner.LowerChar | tools/ctf_scanner.py:166 | `toLowerCase` on one character: the result is never an upper-case ASCII letter; an upper-case letter becomes the lower-case letter at the same place in the alphabet; any other character is unchanged |
| CtfScanner.Lower | tools/ctf_scanner.py:166 | lower-casing a name character by character, keeping its length |
| CtfScanner.LowerCustomTags | tools/ctf_scanner.py:165-166 | the lower-cased names are exactly those of the names containing `-` |
| CtfScanner.CustomTags | tools/ctf_scanner.py:164-166 | each custom tag once, and exactly the lower-cased names containing `-` |
| CtfScanner.CustomTagsLowered | tools/ctf_scanner.py:165-166 | every reported tag contains `-` and is already lower-case |
| CtfScanner.LowerCustom | tools/ctf_scanner.py:165-166 | lower-casing keeps the `-` and is idempotent |
| CtfScanner.CustomAttributeNames | tools/ctf_scanner.py:170-176 | the attribute names kept are exactly those the custom-attribute test accepts |
| CtfScanner.CustomAttributes | tools/ctf_scanner.py:168-177 | each custom attribute name once, and exactly the accepted ones |
| CtfScanner.CustomAttributeRule | tools/ctf_scanner.py:172 | an attribute is custom exactly when its name contains `-` and starts with neither `aria-` nor `data-` |
| CtfScanner.MergeTags | tools/ctf_scanner.py:219 | the merged tags have no duplicate and are exactly the union of page tags and shadow tags |
| CtfScanner.MergeTagsOrder | tools/ctf_scanner.py:219 | every page tag comes before every tag found only among the shadow tags |
| CtfScanner.FirstInPrefix | tools/ctf_scanner.py:219 | a page tag first occurs within the page tags of `tags + shadow_tags` |
| CtfScanner.NotFirstInPrefix | tools/ctf_scanner.py:219 | a shadow-only tag first occurs after the page tags |
| CtfScanner.CellsFor | tools/ctf_scanner.py:262 | one cell per key, in key order, following the cell rule |
| CtfScanner.CsvRow | tools/ctf_scanner.py:257-262 | exactly the nine field names in order; a missing key gives None, a list or dict its JSON text, anything else itself |
| CtfScanner.CsvRowFlat | tools/ctf_scanner.py:262 | no cell of a row is a list or a dict |
| CtfScanner.CellsForFlat | tools/ctf_scanner.py:262 | no cell built for any key list is a list or a dict |
| CtfScanner.CsvRowIgnoresOtherKeys | tools/ctf_scanner.py:257-262 | a key of the result that is not a field name does not change the row |
| CtfScanner.CellsForIgnores | tools/ctf_scanner.py:262 | a key outside the key list does not change the cells |
| Lists.Dedup | tools/ctf_scanner.py:219 | `list(dict.fromkeys(s))`: no duplicate, no longer than `s`, exactly the elements of `s` |
| Lists.FirstIndex | tools/ctf_scanner.py:219 | the first position of an element: it is there and not before |
| Lists.FirstIndexInPrefix | tools/ctf_scanner.py:219 | an element of a prefix first occurs at the same place in the whole |
| Lists.FirstIndexLeast | tools/ctf_scanner.py:219 | the first occurrence is no later than any occurrence |
| Lists.DedupKeepsFirstOrder | tools/ctf_scanner.py:219 | de-duplication lists elements in the order of their first occurrences |
| Lists.SortedDistinct | recon1.0.py:98 | a strictly ascending list has no duplicate |
| Lists.LeastExists | recon1.0.py:98 | every non-empty set of strings has a least element under Python's string order |
| Lists.SortedUnique | recon1.0.py:98 | two strictly ascending lists with the same elements are equal: `sorted` of a set is determined |
| Lists.SortedList | recon1.0.py:98 | `sorted(s)` of a set of strings: strictly ascending, exactly the set's elements, as many as the set has |
| Lists.ListOfSet | recon1.0.py:109 | `list(s)` of a set: no duplicate, exactly the set's elements, in an order not fixed |
| Lists.Take | recon1.0.py:112 | `xs[:k]` is a prefix of `xs`: exactly `k` elements when `0 <= k <= len(xs)`, all of `xs` when `k` is at least its length, all but the last `-k` when `k` is negative, empty when `-k` is at least the length |
| Lists.TakeDistinct | passive_recon1.py:78 | a prefix of a duplicate-free list is duplicate-free, drawn from the list, and the whole list when as long |
| Text.StripLeft | tools/ctf_scanner.py:247 | `lstrip()`: no longer than its input, and not starting with whitespace |
| Text.StripRight | tools/ctf_scanner.py:247 | `rstrip()`: no longer than its input, not ending with whitespace, with the input's first character |
| Text.StripLeftSlice | tools/ctf_scanner.py:247 | what `lstrip()` keeps is a suffix, and what it drops is whitespace |
| Text.StripRightSlice | tools/ctf_scanner.py:247 | what `rstrip()` keeps is a prefix, and what it drops is whitespace |
| Text.Strip | tools/ctf_scanner.py:247 | `strip()`: no surrounding whitespace, never longer |
| Text.StripBounds | recon1.0.py:91 | the stripped string is a slice of the input with only whitespace on both sides of it |
| Text.StripTrimmed | recon1.0.py:210 | a string without surrounding whitespace strips to itself |
| Text.StripIdempotent | recon1.0.py:91 | stripping twice is stripping once |
| Text.OccursContains | passive_recon1.py:61 | an occurrence at some offset makes `needle in hay` true |
| Text.ContainsOccurs | passive_recon1.py:61 | a true `needle in hay` has an offset |
| Text.ContainsStripped | passive_recon1.py:61-62 | a non-empty needle without surrounding whitespace is in a string exactly when it is in the stripped string |
| Text.SliceContains | passive_recon1.py:61 | what a slice contains, the whole string contains |
| Text.SliceOccurs | passive_recon1.py:61 | an occurrence lying inside a slice is found in the slice |
| Text.OccurrenceInside | passive_recon1.py:61-62 | an occurrence of a needle without surrounding whitespace lies inside the non-space middle |
| Text.Split | recon1.0.py:90 | `split('\n')`: at least one piece, and no piece holds the separator |
| Text.SplitJoin | recon1.0.py:90 | joining the pieces with the separator gives the string back |
| Text.BelowIrreflexive | recon1.0.py:98 | no string sorts before itself |
| Text.BelowTransitive | recon1.0.py:98 | the string order is transitive |
| Text.BelowTotal | recon1.0.py:98 | of two different strings one sorts before the other |
| Text.DigitChar | minscanner.py:29 | the decimal digit character of a value below 10 |
| Text.NatToString | minscanner.py:29 | at least one character, all decimal digits |
| Text.IntToString | minscanner.py:29 | `str(port)`: non-empty and without a space, so the line's fields can be told apart |
| Text.NatToStringValue | minscanner.py:29 | the digits of `n` have value `n` |
| Text.IntToStringRoundTrip | minscanner.py:29 | reading `str(i)` back gives `i` |
| Text.ParseDigits | minscanner.py:29 | a run of digits reads as its value, and with `-` in front as its negation |
| Lookups.Handled | recon1.0.py:89-90 | the entries before the first the loop raises on: a prefix, all usable, and it stops only at an unusable entry |
| Lookups.KeptMembers | recon1.0.py:90-93 | a string is kept from a `name_value` exactly when it is the stripped form of a piece the test accepts |
| Lookups.FoundMembers | recon1.0.py:89-93 | a string is in the set exactly when it is the stripped form of an accepted piece of one of the entries |
| Lookups.CollectNames | recon1.0.py:89-93 | the nested loop's set is that of the handled entries; `complete` is false exactly when an entry raised |
| Lookups.AddPieces | recon1.0.py:90-93 | the inner loop adds exactly the kept pieces of one entry |
| Lookups.FoundStep | recon1.0.py:89-93 | one more entry adds exactly its kept pieces |
| Lookups.HandledPrefix | recon1.0.py:89-97 | entries after one the loop raises on are never looked at |
| Lookups.FoundAgree | passive_recon1.py:61 | two piece tests that agree build the same set |
| Lookups.ArchiveSetMembers | recon1.0.py:109 | a URL is in the set exactly when it is the first field of a row after the header |
| Lookups.ArchiveSetFailures | recon1.0.py:103-111 | no reply, another status, an undecodable body or an empty row gives no URL |
| Lookups.ArchiveList | recon1.0.py:109 | `list({...})`: no duplicate, exactly the first fields after the header |
| Recon.StrAll | recon1.0.py:39 | `[str(x) for x in v]`: defined exactly when no `str(x)` raises, then element by element |
| Recon.SafeStr | recon1.0.py:34-42 | `N/A` for None; a list, set or tuple joined with `", "`; anything else `str(v)`; `N/A` whenever a `str` raises |
| Recon.SafeStrEmpty | recon1.0.py:38-39 | an empty list, set or tuple gives `""`, not `N/A` |
| Recon.SafeStrStrings | recon1.0.py:38-39 | a list of strings gives those strings joined with `", "` |
| Recon.Clean | recon1.0.py:191-200 | None stays None, scalars unchanged, a dict keeps its keys, a list, set or tuple becomes a list of the same length, any other object its `safe_str` |
| Recon.CleanJsonReady | recon1.0.py:191-203 | whatever goes in, the result holds only None, scalars, lists and dicts at every depth |
| Recon.CleanItemsReady | recon1.0.py:198-199 | a cleaned list, set or tuple is JSON-ready |
| Recon.CleanKeepsReady | recon1.0.py:191-200 | a JSON-ready value comes out unchanged |
| Recon.CleanIdempotent | recon1.0.py:191-200 | cleaning twice is cleaning once |
| Recon.DropPrefix | recon1.0.py:212-213 | when the string starts with `p`, `p` followed by the result is the string; otherwise the string unchanged; never longer than the string |
| Recon.StripTrailing | recon1.0.py:214 | `rstrip('/')`: a prefix that does not end in `/`, and everything dropped is `/` |
| Recon.NormalizeDomain | recon1.0.py:209-214 | the loop over the two schemes computes `Normalized(d)`, which never ends in `/` |
| Recon.DropPrefixesStep | recon1.0.py:211-213 | one more loop turn removes the next scheme when present |
| Recon.NormalizedSteps | recon1.0.py:210-214 | strip, then drop one `http://`, then one `https://`, then trailing `/` |
| Recon.NormalizedClean | recon1.0.py:209-214 | a name without surrounding whitespace, scheme or trailing `/` is returned unchanged |
| Recon.NormalizedTrimmed | recon1.0.py:211-214 | for a name without surrounding whitespace, only the scheme and `/` removals apply |
| Recon.NormalizedNested | recon1.0.py:211-213 | `https://http://s` gives `http://s`, which normalises again to `s` |
| Recon.NormalizedNotIdempotent | recon1.0.py:209-214 | `normalize_domain` is not idempotent: `https://http://x` → `http://x` → `x` |
| Recon.StripTrailingKeeps | recon1.0.py:214 | a string not ending in `/` keeps its length under `rstrip('/')` |
| Recon.WrappedTrimmed | recon1.0.py:210 | a scheme in front of a name without surrounding whitespace leaves nothing to strip |
| Recon.DropOuter | recon1.0.py:211-213 | on `https://` + `http://…`, the first turn changes nothing and the second removes `https://` |
| Recon.DropInner | recon1.0.py:211-213 | on `http://s`, the first turn removes `http://` and the second changes nothing |
| Recon.CrtSubdomains | recon1.0.py:80-98 | `sorted(subdomains)`: strictly ascending, exactly the set the loop builds for a 200 reply that decoded, empty otherwise |
| Recon.CrtFoundMembers | recon1.0.py:89-93 | a subdomain is found exactly when it is a stripped, non-empty `\n`-piece of an entry's `name_value` (missing = `""`) that contains `domain` |
| Recon.CrtFoundNonEmpty | recon1.0.py:92 | the empty string is never reported |
| Recon.CrtStopsAtNonObject | recon1.0.py:89-97 | entries after one without `.get` are never looked at |
| Recon.WaybackUrls | recon1.0.py:101-112 | no duplicate, `len` as `[:limit]` gives for the distinct first fields after the header, all drawn from them, all of them when not cut |
| Recon.Ipv6 | recon1.0.py:70-75 | `N/A` exactly when the lookup raised or no address contains `:`; otherwise those addresses, each once |
| PassiveRecon1.CrtSubdomains | passive_recon1.py:51-65 | strictly ascending, exactly the set the loop builds before the first entry it raises on |
| PassiveRecon1.CrtFoundMembers | passive_recon1.py:59-62 | a subdomain is found exactly when it is the stripped form of a `\n`-piece that contains `domain` before stripping |
| PassiveRecon1.CrtStopsAtMissingName | passive_recon1.py:59-64 | an entry without `name_value` raises, so later entries are never looked at |
| PassiveRecon1.HandledAll | passive_recon1.py:59-60 | when every entry carries `name_value`, every entry is handled |
| PassiveRecon1.CrtAgreesWithRecon | passive_recon1.py:61-62 | for a non-empty domain without surrounding whitespace and entries that all have `name_value`, the raw-piece test gives the same set as the stripped test |
| PassiveRecon1.CrtEmptyDomainKeepsBlank | passive_recon1.py:61-62 | with an empty domain a blank piece is stored as `""`, which the stripped test never reports |
| PassiveRecon1.WaybackUrls | passive_recon1.py:67-78 | no duplicate, `min(n, 30)` URLs of the `n` distinct first fields after the header, all drawn from them |
| PassiveRecon1.Ipv6 | passive_recon1.py:43-47 | `N/A` exactly when the lookup raised; otherwise exactly the distinct addresses containing `:`, empty when there is none |
| PassiveRecon.ShownBullet | passive_recon.py:43 | the line ` - x` shows `x` |
| PassiveRecon.PrintBullets | passive_recon.py:42-43 | one ` - x` line per element, in order |
| PassiveRecon.ShowSorted | passive_recon.py:42-43 | the lines are the bullets of the first `count` elements of the set in ascending order |
| PassiveRecon.ShowsWitness | passive_recon.py:42-43 | a listing comes from the sorted list of the items |
| PassiveRecon.ShowsUnique | passive_recon.py:42-43 | what is printed is fixed by the items |
| PassiveRecon.ShowsOrdered | passive_recon.py:56 | each printed item is an item, printed once, in ascending order; as many as `[:count]` keeps; every item left out sorts after every item printed |
| PassiveRecon.ShowsAll | passive_recon.py:42-43 | when nothing is cut, every item is printed |
| PassiveRecon.CrtReport | passive_recon.py:30-47 | no reply, an undecodable body or an entry without `name_value` prints only the error; another status only the rate-limit message; otherwise every subdomain whose raw piece contains `TARGET`, in ascending order |
| PassiveRecon.WaybackReport | passive_recon.py:49-61 | no reply, an undecodable body or an empty row prints only the error; another status only the failure message; otherwise the first 20 distinct URLs after the header in ascending order |

## Left out

- Sockets (`socket()`, `settimeout`, `connect`, `connect_ex`, `recv`, `close`): network I/O. The connect outcome and the bytes the peer has waiting are inputs.
- Threads, `start`/`join` timing and `print_lock`: real concurrency. Only the sequential bookkeeping of `thread_list` is modelled, so the model says nothing about interleaving or the order in which lines are printed.
- `socket.gethostbyname`, `datetime.now()`, `argparse` and the header and footer lines of the port scanner: host and clock I/O.
- PortScanner.Recv: takes every waiting byte up to 1024; a real `recv` may return fewer.
- PortScanner.BannerGrab: `bytes.decode()` is a parameter, because UTF-8 decoding is not modelled.
- The Selenium path of the page scanner (driver creation, `driver.get`, `time.sleep`, `page_source`, `execute_script`), the live shadow-DOM walk, the HTML file write and the `result` dictionary filled field by field: browser and file I/O. The tag and attribute rules are modelled over element and attribute names.
- The `registered` list (`customElements.get`): it depends on the live page.
- The `dom_info.get(...) or []` defaults: MergeTags takes the two tag lists after those defaults.
- CtfScanner.Lower: lower-cases the ASCII letters only; JavaScript's `toLowerCase` maps other letters too.
- The page scanner's `ThreadPoolExecutor`/`as_completed` collection and its `main`: concurrency.
- The JSON and CSV writes of `save_outputs`, `save_report_json` and the text report: file output. `json.dumps` is a parameter of the CSV row; csv encoding is not modelled.
- All HTTP, WHOIS, DNS and ipinfo calls, the retry and session setup, and the https→http fallback of `get_http_headers`: network I/O. A reply enters as the `Reply` datatype.
- Recon.CrtSubdomains: a `name_value` that is not a string (which `str()` would convert) is not modelled; an entry's `name_value` is a string or missing.
- A JSON body that is not a list, whose iteration the loops would then depend on: not modelled; a decoded crt.sh or CDX body is a list.
- Recon.WaybackUrls, PassiveRecon1.WaybackUrls and Lists.ListOfSet: the order `list(set)` gives is left unspecified, so which URLs survive the cut is not fixed.
- PassiveRecon.CrtReport and PassiveRecon.WaybackReport: the heading line each prints first and the exception text after the error message are not modelled.
- Recon.SafeStr: `str()` is a parameter, since Python's formatting of arbitrary values is not modelled.
- `active_recon.py` (a wrapper over `subprocess.call`) and `tools/web_ui.py` (a Flask app with a thread-updated global): process and UI glue.
- `extract_from_html`, `CHROMEDRIVER_PATH` and `BROWSER_BINARY`, which the test files name: they are not defined in `tools/ctf_scanner.py`, so they are not modelled.
- Text.IsSpace: the characters Python's `str.isspace` accepts are written out one by one; Unicode tables are not modelled beyond that list.
