# SSTF elevator and /proc collectors, modelled in Dafny

This project models two sequential parts of a Buildroot lab repository.

1. **The SSTF (Shortest Seek Time First) I/O scheduler**
   (`modules/ssft_iosched/sstf-iosched.c`). The elevator keeps a FIFO list of
   pending block requests and the sector the head was last sent to. Each
   dispatch unlinks the queued request nearest to the head and moves the head
   there. Ties go to the earliest queued request, because the scan replaces its
   candidate only on a strictly smaller distance. `Sstf.Scheduler` is a class
   holding `queue: seq<Request>`, `head: nat` and a ghost `dispatched`
   sequence. That sequence stands for the dispatch list that
   `elv_dispatch_sort` feeds.
2. **The /proc text parsers of the status web server**
   (`custom-scripts/python_http_server.py`). These are the collectors for CPU
   model, memory, disks, input devices and network adapters. Each takes the
   lines of its file as `seq<string>`, as Python's iteration yields them
   (line terminators included), instead of opening the file. Each collector is
   an imperative method with the source's loop, proved equal to a recursive
   specification function. Lemmas about that function state what the
   collector returns. Python's exceptions (`IndexError`, `ValueError`,
   `KeyError`) are `Failure` values of a `Result`.

`PyText` states the Python `str`/`int` operations the parsers rely on:
`split()`, `split(sep)`, `strip()`, `sub in s`, `startswith`,
`replace(c, '')`, `int()`. `split()`, `split(sep)`, `strip()`,
`replace(c, '')` and `int()` come with round-trip or characterisation
lemmas. `sub in s` and `startswith` are predicates that state their meaning
directly.

Some behaviours of the code worth noting, all modelled as written:
- **CPU model.** The code keeps the model from the *last* `model name` line
  read, not the first. It reads up to and including the first `cpu MHz` line.
- **Input devices.** The code appends the dictionary object itself at each
  `P:` line. So entries appended between two `T:` lines (or before the first
  `T:`) are one shared dictionary. `S:`/`D:` lines after a `P:` line still
  change entries already emitted. Records are not closed at `P:`.
- **Memory.** A `MemAvailable` line before any `MemTotal` line raises
  `KeyError`, before that line's own figure is parsed.

## Model

| member | source | states |
|---|---|---|
| `Sstf.Distance` | modules/ssft_iosched/sstf-iosched.c:32 | The seek distance is zero exactly when the request sits at the head. Otherwise it is the absolute difference of sector and head. |
| `Sstf.Nearest` | modules/ssft_iosched/sstf-iosched.c:27-38 | The position a first-strict-minimum scan picks is nearest: no queued request is nearer, and every request queued before it is strictly farther. |
| `Sstf.NearestUnique` | modules/ssft_iosched/sstf-iosched.c:33 | At most one position is nearest in that sense. So the strict `<` tie-break fixes the choice. |
| `Sstf.FindNextRequest` | modules/ssft_iosched/sstf-iosched.c:27-38 | The scan returns no request (NULL) exactly on an empty queue. Otherwise it returns the nearest position, ties going to the earliest. |
| `Sstf.RemoveAt` | modules/ssft_iosched/sstf-iosched.c:50 | Unlinking entry `k` removes exactly that one request. The others keep their relative order. |
| `Sstf.PositionOf` | modules/ssft_iosched/sstf-iosched.c:23 | It finds where a request is queued, and is `None` exactly when the request is not queued. |
| `Sstf.Scheduler.constructor` | modules/ssft_iosched/sstf-iosched.c:84-85 | Queue set-up gives an empty queue with the head at sector 0. |
| `Sstf.Scheduler.Dispatch` | modules/ssft_iosched/sstf-iosched.c:42-58 | On an empty queue it returns 0 and changes nothing. Otherwise it removes exactly the nearest request, keeps the rest in order, and moves the head to that request's sector. It appends the request to `dispatched` and returns 1. |
| `Sstf.Scheduler.AddRequest` | modules/ssft_iosched/sstf-iosched.c:60-66 | The request is appended at the tail. Earlier entries, the head and `dispatched` are unchanged. |
| `Sstf.Scheduler.MergedRequests` | modules/ssft_iosched/sstf-iosched.c:20-24 | Only `next` is unlinked, and the others keep their order. `rq` stays queued if it was, and the head is unchanged. Unlinking a request that is not queued is a no-op. |
| `Sstf.Scheduler.ExitQueue` | modules/ssft_iosched/sstf-iosched.c:94-101 | Teardown requires an empty queue, the condition the `BUG_ON` enforces. It changes no modelled state. |
| `Sstf.Teardown` | modules/ssft_iosched/sstf-iosched.c:94-101 | Draining before teardown satisfies the `BUG_ON` condition. It empties the queue with one dispatch per request, in SSTF order. |
| `Sstf.SstfOrderPermutes` | modules/ssft_iosched/sstf-iosched.c:48-52 | The SSTF dispatch order of a queue is a permutation of it. Every request is dispatched exactly once. |
| `Sstf.Drain` | modules/ssft_iosched/sstf-iosched.c:42-58 | Dispatching until 0 is returned makes exactly one successful call per queued request. It empties the queue and dispatches in SSTF order. |
| `CpuInfo.ValueAfterColon` | custom-scripts/python_http_server.py:26 | `line.split(':')[1].strip()` raises IndexError exactly when the line has no colon. The value it returns has no colon. |
| `CpuInfo.ValueAfterColonBetween` | custom-scripts/python_http_server.py:26 | The value is the text between the first colon and the next colon (or the end of the line), trimmed. |
| `CpuInfo.GetCpuInfo` | custom-scripts/python_http_server.py:21-30 | The collector's loop, with its `break`, computes the specification `Scan`. |
| `CpuInfo.ScanModel` | custom-scripts/python_http_server.py:25-26 | On success, the model is the value of the last `model name` line read, up to and including the first `cpu MHz` line. With no such line it is absent. |
| `CpuInfo.ScanSpeed` | custom-scripts/python_http_server.py:27-29 | On success, the speed text is present exactly when a `cpu MHz` line exists. It is then the value of the first such line, where the loop stops. |
| `CpuInfo.ScanFails` | custom-scripts/python_http_server.py:25-28 | The modelled scan raises IndexError exactly when a line it reads has a label but no colon. |
| `MemoryInfo.SecondFieldMb` | custom-scripts/python_http_server.py:44 | It succeeds exactly when the line has a second field that `int()` accepts. The result is that number of kilobytes floored to megabytes. IndexError comes exactly when there is no second field, ValueError otherwise. |
| `MemoryInfo.GetMemoryInfo` | custom-scripts/python_http_server.py:39-48 | The collector's loop, with its `break`, computes the specification `Scan`. |
| `MemoryInfo.ScanTotal` | custom-scripts/python_http_server.py:42-44 | `total` is the megabyte figure of the last `MemTotal` line read before the scan stops. |
| `MemoryInfo.ScanUsed` | custom-scripts/python_http_server.py:45-47 | `used` is present exactly when a `MemAvailable` line exists. It is then `total` minus the megabytes on the first such line, where the scan stops. |
| `MemoryInfo.KeyErrorWhenNoTotal` | custom-scripts/python_http_server.py:46 | KeyError comes exactly when the first `MemAvailable` line comes before any `MemTotal` line (counting that line itself). |
| `MemoryInfo.ScanFails` | custom-scripts/python_http_server.py:42-47 | The loop raises exactly when a line it reads carries `MemTotal` or `MemAvailable` and a second field that `split()[1]` or `int()` rejects, or when the first `MemAvailable` line comes with no total held. Any error other than KeyError is the IndexError or ValueError of such a line's figure. |
| `MemoryInfo.ScanWithTotalNoKeyError` | custom-scripts/python_http_server.py:46 | Once a total is held, KeyError cannot come. |
| `MemoryInfo.SecondFieldMbOfLine` | custom-scripts/python_http_server.py:44 | A line `<name> <n> kB` carries `n // 1024` megabytes. |
| `MemoryInfo.SecondFieldMbOfPaddedLine` | custom-scripts/python_http_server.py:44 | A line `<name><padding><n> kB` with its line end, as in /proc/meminfo, carries `n // 1024` megabytes. |
| `MemoryInfo.SecondFieldMbOfFields` | custom-scripts/python_http_server.py:44 | A line whose second field is the number `n` carries `n // 1024` megabytes, whatever whitespace pads its fields and ends it. |
| `MemoryInfo.MemInfoOfTwoLines` | custom-scripts/python_http_server.py:43-47 | The lines `MemTotal: t kB` and `MemAvailable: a kB` give total `t // 1024` and used `t // 1024 - a // 1024`. |
| `MemoryInfo.MemInfoExample` | custom-scripts/python_http_server.py:44-46 | 8000000 kB and 2000000 kB give total 7812 MB and used 5859 MB. |
| `DiskInfo.RowEntry` | custom-scripts/python_http_server.py:70-74 | A row without exactly four fields yields nothing. A four-field row with an unparsable third field raises ValueError. Every other row yields its entry. |
| `DiskInfo.FourFieldRows` | custom-scripts/python_http_server.py:71 | A reference list of the rows with exactly four fields, in order. |
| `DiskInfo.GetDiskInfo` | custom-scripts/python_http_server.py:66-75 | The collector's loop over the lines after the header computes the specification `DiskInfo`. |
| `DiskInfo.DiskRowsFail` | custom-scripts/python_http_server.py:72 | The collector raises exactly when some four-field row has a size that `int()` rejects. |
| `DiskInfo.DiskRowsEntries` | custom-scripts/python_http_server.py:69-74 | There is one entry per four-field row, in row order: `(field 4, int(field 3) // 1024)`. |
| `DiskInfo.HeaderNeverListed` | custom-scripts/python_http_server.py:69 | Every entry comes from a four-field line at index 2 or later. |
| `DiskInfo.RowOfFields` | custom-scripts/python_http_server.py:70-74 | The row `<major> <minor> <blocks> <name>` yields `(name, blocks // 1024)`. |
| `DiskInfo.RowOfSpacedFields` | custom-scripts/python_http_server.py:70-74 | The same holds with any whitespace around and between the four fields, as in the padded columns of /proc/partitions. |
| `UsbDevices.AttrValue` | custom-scripts/python_http_server.py:87 | `line.split('=')[1].strip()` holds no `=`. |
| `UsbDevices.Classify` | custom-scripts/python_http_server.py:82-91 | The `elif` chain: a `T:` line starts a new dictionary and a `P:` line appends, each exactly so. |
| `UsbDevices.ClassifyAttributes` | custom-scripts/python_http_server.py:82-91 | The rest of the `elif` chain, each branch in both directions: on a line that is neither `T:` nor `P:`, an `S:` line with `Product=` sets the product, else an `S:` line with `Manufacturer=` sets the manufacturer, else a `D:` line with `Port=` sets the port. A set value is `split('=')[1].strip()` of the line. Every other line changes nothing. |
| `UsbDevices.Device.constructor` | custom-scripts/python_http_server.py:80 | `{}` holds none of the three keys. |
| `UsbDevices.Device.Update` | custom-scripts/python_http_server.py:86-91 | An `S:`/`D:` line stores its one attribute in place, as the `elif` chain picks it. |
| `UsbDevices.StartDevice` | custom-scripts/python_http_server.py:82-83 | The `T:` branch puts a fresh dictionary in hand. The entries still show the specification state after a `T:` step. |
| `UsbDevices.SetAttribute` | custom-scripts/python_http_server.py:86-91 | The `S:`/`D:` branch changes only the dictionary in hand. Every entry appended from it shows the change, as one specification step says. |
| `UsbDevices.GetUsbDevices` | custom-scripts/python_http_server.py:77-92 | The collector returns one dictionary object per entry of `Devices(lines)`, holding its final contents. Two entries are the same object exactly when appended from the same dictionary. |
| `UsbDevices.EntryCount` | custom-scripts/python_http_server.py:84-85 | There is one entry per `P:` line. |
| `UsbDevices.EntryIsSegment` | custom-scripts/python_http_server.py:80-91 | A `P:` line's entry holds what the lines set between the `T:` line before it and the `T:` line after it. |
| `UsbDevices.SharedEntry` | custom-scripts/python_http_server.py:80-85 | Two `P:` lines with no `T:` line between them give equal entries. |
| `UsbDevices.FreshAfterT` | custom-scripts/python_http_server.py:82-83 | A `T:` line starts a fresh, empty dictionary. |
| `UsbDevices.ProductBeforeManufacturer` | custom-scripts/python_http_server.py:86-89 | An `S:` line with both `Product=` and `Manufacturer=` sets only the product. |
| `UsbDevices.AttrValueBetween` | custom-scripts/python_http_server.py:87 | The value is the text between the first and the second `=`, trimmed. |
| `NetworkAdapters.IfaceName` | custom-scripts/python_http_server.py:98 | IndexError comes exactly on a blank row. The name has no `:`. |
| `NetworkAdapters.IfaceNameOfRow` | custom-scripts/python_http_server.py:98 | An indented row `<name>: <counters>` gives exactly `name`. |
| `NetworkAdapters.GetNetworkAdapters` | custom-scripts/python_http_server.py:94-107 | The nested loops compute the specification `NetworkAdapters`. |
| `NetworkAdapters.Containing` | custom-scripts/python_http_server.py:102 | A reference list of the if_inet6 lines containing the name, in order. |
| `NetworkAdapters.MatchesSpec` | custom-scripts/python_http_server.py:101-104 | The inner loop yields one entry per line containing the name, in order, holding that line's first field. It raises exactly when such a line has no field. |
| `NetworkAdapters.MatchesMembers` | custom-scripts/python_http_server.py:101-104 | The inner loop's entries are exactly the name paired with the first field of a line containing it. |
| `NetworkAdapters.RowsConcat` | custom-scripts/python_http_server.py:97-104 | The list is ordered by interface row: rows `a + b` list `a`'s adapters, then `b`'s. |
| `NetworkAdapters.NetworkAdaptersMembers` | custom-scripts/python_http_server.py:97-104 | An entry is listed exactly when it pairs a name from a row after the two header lines with the first field of an if_inet6 line containing that name. |
| `NetworkAdapters.RowsFail` | custom-scripts/python_http_server.py:98-103 | The collector raises IndexError exactly on a blank row, or on a row whose name a field-less if_inet6 line contains. |
| `NetworkAdapters.RowsOne` | custom-scripts/python_http_server.py:97-104 | A single row contributes exactly the inner loop's entries for its interface name, or the IndexError of a blank row. |
| `PyText.Split` | custom-scripts/python_http_server.py:70 | `split()` yields non-empty words without whitespace. |
| `PyText.SplitJoinSpaced` | custom-scripts/python_http_server.py:70 | `split()` of words joined by single spaces gives the words back. |
| `PyText.SplitSpaced` | custom-scripts/python_http_server.py:70 | `split()` gives back the words, whatever whitespace runs lie around and between them. |
| `PyText.SplitSkipsSpace` | custom-scripts/python_http_server.py:70 | Leading whitespace does not change `split()`. |
| `PyText.SplitWordThen` | custom-scripts/python_http_server.py:70 | A word followed by whitespace or the end is the first word of `split()`, and the rest is split as before. |
| `PyText.Strip` | custom-scripts/python_http_server.py:26 | `strip()` leaves neither leading nor trailing whitespace. |
| `PyText.StripIdempotent` | custom-scripts/python_http_server.py:26 | `strip()` is idempotent. |
| `PyText.SplitOn` | custom-scripts/python_http_server.py:87 | `split(sep)` yields pieces without `sep`, at least two exactly when `sep` occurs. |
| `PyText.JoinSplitOn` | custom-scripts/python_http_server.py:87 | Joining the pieces of `split(sep)` with `sep` gives the string back. |
| `PyText.SplitOnJoinWith` | custom-scripts/python_http_server.py:87 | Splitting pieces joined with `sep` gives the pieces back. |
| `PyText.PieceAfterFirst` | custom-scripts/python_http_server.py:26 | `split(sep)[1]` is the text between the first `sep` and the next one, or the end. |
| `PyText.RemoveChar` | custom-scripts/python_http_server.py:98 | `replace(c, '')` leaves no `c`, and changes nothing when `c` is absent. |
| `PyText.RemoveCharCount` | custom-scripts/python_http_server.py:98 | `replace(c, '')` drops every `c` and keeps every other character as often as it occurs. |
| `PyText.RemoveCharConcat` | custom-scripts/python_http_server.py:98 | `replace(c, '')` works piece by piece, so the kept characters stay in order. |
| `PyText.ParseIntToDecimal` | custom-scripts/python_http_server.py:72 | `int(str(n)) == n` for every natural `n`. |
| `PyText.ParseIntSigned` | custom-scripts/python_http_server.py:44 | `int()` of `-` or `+` followed by the digits of `n` is `-n` or `n`. |
| `PyText.ParseInt` | custom-scripts/python_http_server.py:44 | `int()` rejects a string that is blank once stripped. |
| `PyText.ParseIntRejects` | custom-scripts/python_http_server.py:72 | `int()` rejects a character other than a digit or `_`, except a leading sign. |
| `PyText.FirstWith` | custom-scripts/python_http_server.py:27-29 | This is the first line containing a pattern, where a `break` stops the scan. |
| `PyText.LastWith` | custom-scripts/python_http_server.py:25-26 | This is the last line containing a pattern, whose value a repeated assignment keeps. |
| `PyText.AfterHeader` | custom-scripts/python_http_server.py:69 | `lines[2:]` is what follows the first two lines, and is empty for shorter input. |

## Left out

- The HTTP listener, `MyHandler.do_HEAD`/`do_GET` and the HTML rendering (`custom-scripts/python_http_server.py:114-188`): network I/O and templating, including `:.2f` float formatting.
- `get_buildroot_info`: it runs `ssh` as a foreign process.
- `get_uptime`, `get_cpu_usage`: floating-point arithmetic.
- `get_system_time`, `get_os_version`, `get_processes`: clock and filesystem access (`listdir`, the per-process `IOError` skip).
- Every `open(...)` call: the parsers receive the lines of their files instead. In `get_network_adapters` the if_inet6 file is reopened for every interface row. The model takes one line list, so it assumes the file does not change between reads.
- The `FileNotFoundError` handling in `get_network_adapters`: the if_inet6 lines are always supplied.
- CpuInfo.ScanFails: the failures it characterises are the IndexErrors of `split(':')[1]`. The ValueError that `float()` raises on a non-numeric speed is not modelled (see the next line).
- CpuInfo.GetCpuInfo: the `speed` entry is kept as the text passed to `float()`. The conversion, and the ValueError it raises on non-numeric text, are not modelled, because they are floating point.
- PyText.ParseInt: Python's `int()` also accepts non-ASCII Unicode decimal digits. The model accepts only ASCII digits, with optional sign, surrounding whitespace and single underscores between digits. CPython 3.11 and later also raise ValueError on more than 4300 digits, in `int()` and in `str()`, so `PyText.ParseIntToDecimal` holds there only for numbers of at most 4300 digits. The model has no such limit.
- PyText.Split: its own contract states only the shape of the words. What the words are is stated by `PyText.SplitSpaced`, `PyText.SplitSkipsSpace` and `PyText.SplitWordThen`.
- PyText.RemoveChar: its own contract states only that no `c` is left. What is kept, and in which order, is stated by `PyText.RemoveCharCount` and `PyText.RemoveCharConcat`.
- CpuInfo.ValueAfterColon: its own contract states only when it raises. The value itself is stated by `CpuInfo.ValueAfterColonBetween`.
- NetworkAdapters.IfaceName: its own contract states only when it raises. The name itself is stated by `NetworkAdapters.IfaceNameOfRow`.
- Sstf.Distance: sectors are naturals and the distance is the mathematical absolute difference. The model does not cover the unsigned 64-bit wrap-around of `sector_t`, the kernel's `abs()` of that difference, or the `min_distance = -1` sentinel. The sentinel is "no candidate yet" (`None`).
- Sstf.Scheduler.constructor: the `-ENOMEM` paths of `elevator_alloc`/`kmalloc_node`, the `spin_lock_irq` section and the hookup of `q->elevator` are kernel plumbing.
- Sstf.Scheduler.Dispatch: the `force` argument and the `direction` character are unused apart from logging. `printk` is left out. `elv_dispatch_sort` is modelled only as appending to the ghost `dispatched` sequence.
- Sstf.Scheduler.AddRequest: requires a request not already queued (distinct ids), as the block layer only adds requests that are on no list.
- The kernel's intrusive linked list is a `seq<Request>`. Node aliasing and `list_del_init` re-initialising the unlinked node are not modelled.
- `elv_register`/`elv_unregister` and module init/exit: kernel registration.
