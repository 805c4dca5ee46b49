# OS — system information scripts, modelled in Dafny

OS is a pair of Python scripts that report basic facts about the machine
they run on: `LINUX.py` reads `/etc/os-release`, `/proc/meminfo` and the
output of `df -B1 -T`; `WINDOWS.py` asks the Python runtime
(`sys.getwindowsversion()`, `sys.maxsize`, `platform.machine()`) for the
version and the processor architecture, and the Win32 API for the memory
status, performance counters and logical drives. This project models the part of each script that turns what the
system returns into the figures the script reports, and proves what those
figures mean.

What the operating system returns is an input of each operation here:

- `LinuxInfo` (`linux.dfy`): the lines of os-release, the lines of
  meminfo (`None` when the file cannot be read) and the standard output of
  `df` (`None` when it cannot be run). The three loops of the script are
  methods (`GetOsInfo`, `BuildMemInfo`/`GetMemoryInfo`, `GetDrivesInfo`),
  each proved equal to a specification function (`OsName`, `MemoryOf`,
  `DrivesOf`) whose properties are proved as lemmas.
- `WindowsInfo` (`windows.dfy`): the version pair, the `GetLogicalDrives`
  bitmask, the fields of `MEMORYSTATUSEX` and `PERFORMANCE_INFORMATION`,
  `sys.maxsize` and the `platform.machine()` string. The drive loop is a
  method (`GetLogicalDriveRoots`); the rest is pure arithmetic and
  classification, written as functions.
- `PyStr` (`pystr.dfy`): the Python `str` operations the scripts rely on —
  `strip`, `split(sep, 1)`, `split(sep)`, `split()`, `startswith`, `in`,
  `int()` and `str()` — with `str.isspace()`'s exact character set.
- `Arith` (`arith.dfy`): powers of two, the bit tests of `& 1` and `>>= 1`,
  and Python's floor division. For the positive divisors used here,
  Dafny's Euclidean `/` and `%` agree with Python's `//` and `%` on every
  integer, so no extra wrapping is needed.
- `Wrappers` (`wrappers.dfy`): `Option`.

Python integers do not overflow, so no operation imposes a width on the
numbers themselves (the interpreter's limit on the length of decimal strings
is listed under "## Left out"). The
Windows bitmask is an `int` and may be negative, as a ctypes `c_int` result
can be; `& 1` and `>>= 1` on a negative Python int are `% 2` and `/ 2`.

## Model

| member | source | states |
|---|---|---|
| LinuxInfo.OsName | LINUX.py:7-16 | get_os_info as written; with no PRETTY_NAME line the name is "Unknown". Its meaning is `OsNameFirstMatch`. |
| LinuxInfo.PrettyValue | LINUX.py:13 | The value extraction as written: the result is no longer than the text after `PRETTY_NAME=` and neither starts nor ends with a double quote. Its meaning is `PrettyValueQuoted` and `PrettyValueBare`. |
| LinuxInfo.GetOsInfo | LINUX.py:7-16 | The scan returns the value of the first PRETTY_NAME line, or "Unknown" when there is none (equal to `OsName`). |
| LinuxInfo.FirstPretty | LINUX.py:11-12 | The index found is a PRETTY_NAME line with none before it; no index means no line starts with `PRETTY_NAME=`. |
| LinuxInfo.OsNameFirstMatch | LINUX.py:11-16 | With no PRETTY_NAME line the name is "Unknown"; otherwise it is the value of the first such line, for every first line. |
| LinuxInfo.OsNameIgnoresLaterLines | LINUX.py:11-13 | Once a PRETTY_NAME line is present, appending more lines never changes the name. |
| LinuxInfo.PrettyValueAfterFirstEquals | LINUX.py:13 | In a PRETTY_NAME line, `split('=', 1)` cuts at the key's own '=', so the value is everything after `PRETTY_NAME=`, '=' signs included. |
| LinuxInfo.PrettyValueQuoted | LINUX.py:13 | `PRETTY_NAME="<name>"` followed by a newline yields `<name>` with all its spaces kept, including spaces just inside the quotes, because whitespace is stripped before the quotes. |
| LinuxInfo.PrettyValueBare | LINUX.py:13 | An unquoted value loses only its trailing newline. |
| LinuxInfo.MemEntry | LINUX.py:26-28 | A line is stored exactly when it contains ':'. |
| LinuxInfo.MemEntryMeaning | LINUX.py:26-28 | What is stored for a line is the text before its first ':' as key and everything after it as value, both stripped of whitespace. |
| LinuxInfo.BuildMemInfo | LINUX.py:24-28 | The loop builds exactly the dict `MemTable` describes: each line with a ':' assigns its stripped value to its stripped key, in order. |
| LinuxInfo.GetMemoryInfo | LINUX.py:19-37 | The result is `MemoryOf(file)`: zeros when the file cannot be read, otherwise the report of the four figures or zeros when one fails to parse. |
| LinuxInfo.AssignLastWins | LINUX.py:28 | In the dict built by successive assignments, a key is present exactly when some entry stores it, and its value is the last stored. |
| LinuxInfo.MemTableLastWins | LINUX.py:25-28 | A key is in `mem_info` exactly when some line defines it, and its value is the one from the last line that defines it. |
| LinuxInfo.LeadingKb | LINUX.py:30-33 | One lookup as written: a key no line defines falls back to "0 kB", which reads as 0, and the lookup raises exactly when the stored value has no word or its first word is not an integer. Its meaning for stored values is `LeadingKbOfText`. |
| LinuxInfo.MemoryOfUnparsable | LINUX.py:30-37 | A tracked key whose last defining line stores an empty or non-integer value sends the function to its `except`: every figure is zero. |
| LinuxInfo.ReportOf | LINUX.py:30-35 | The four lookups as written; a table holding none of the four keys reports zeros rather than failing. |
| LinuxInfo.MemoryOf | LINUX.py:19-37 | get_memory_info as written; a readable file without a single `key: value` line reports the same zeros as a missing one. Its meaning is `MemoryOfAllOrNothing`. |
| LinuxInfo.MemoryOfAllOrNothing | LINUX.py:21-37 | All or nothing: zeros when the file is missing or any figure fails to parse; otherwise each figure is the kB count rounded down to MB, RAM as (available, total) and swap as (total, free). |
| LinuxInfo.MemEntryOfLine | LINUX.py:26-28 | A line `<key>: <n> kB` stores `<n> kB` under `<key>`, with the spaces and newline stripped. |
| LinuxInfo.LeadingKbOfText | LINUX.py:30-33 | A stored value `<n> kB` reads back as n (`int(str(n)) == n` after `split()[0]`). |
| LinuxInfo.LastMemLineWins | LINUX.py:25-33 | A figure whose last defining line reads `<key>: <n> kB` is n, whatever other lines come before or after. |
| LinuxInfo.MemLinesLastWins | LINUX.py:25-33 | In a file of well-formed lines, each key reads as the number on its last line. |
| LinuxInfo.MemoryOfMeminfo | LINUX.py:19-35 | For the usual head of meminfo (MemTotal, MemFree, MemAvailable, SwapTotal, SwapFree), the report is (available, total) and (swap total, swap free), each `// 1024`; MemFree is not used. |
| LinuxInfo.GetDrivesInfo | LINUX.py:40-75 | The loop returns `DrivesOf(stdout)`: the drives of the kept rows, or [] once any row raises or df cannot be run. |
| LinuxInfo.FailureIsFinal | LINUX.py:52-54 | Once a row has raised, later rows cannot bring the list back. |
| LinuxInfo.CollectMeaning | LINUX.py:46-72 | The loop's list is the kept drives exactly when nothing raises, and nothing otherwise. |
| LinuxInfo.DrivesFromRowsMeaning | LINUX.py:44-75 | The result is the drives of the kept rows in input order exactly when no row raises; one failing row anywhere empties it. |
| LinuxInfo.KeptDrivesFromRows | LINUX.py:49-70 | Every reported drive comes from some row, none is a pseudo file system, and there are no more drives than rows. |
| LinuxInfo.DrivesOf | LINUX.py:40-75 | get_drives_info as written; no reported drive is a pseudo file system. Its meaning is `DrivesFromRowsMeaning`. |
| LinuxInfo.DfRow | LINUX.py:48-69 | One pass of the loop as written: a row that raises or is kept has at least seven fields, and a kept row is never a pseudo file system. Its meaning is `DfRowMeaning`. |
| LinuxInfo.DfRowMeaning | LINUX.py:48-69 | A row raises exactly when it has at least seven fields and field 2, 3 or 4 is not an integer; a row with seven fields, three integer sizes and a type outside the pseudo file systems is kept; a kept row reports field 6, field 1 and fields 4 and 2 rounded down to GiB. |
| LinuxInfo.PseudoRowCanFail | LINUX.py:52-59 | The pseudo-file-system filter comes after `int()`, so a tmpfs row with a bad size still empties the result. |
| LinuxInfo.HeaderOnlyOutput | LINUX.py:44 | Output with nothing after its first line, the header, yields no drives. |
| LinuxInfo.DfRowsAfterHeader | LINUX.py:44 | Exactly the first line is dropped: for a header, a newline, a body and trailing whitespace, the rows are the lines of the body. |
| LinuxInfo.DfRowOfFields | LINUX.py:48-69 | A row written from its fields parses back to them, with the sizes rounded down to whole GiB. |
| LinuxInfo.DfRowOfSplit | LINUX.py:48-69 | A row whose `split()` gives seven fields with decimal sizes and a real file system is kept with field 6, field 1 and the available and total sizes in whole GiB. |
| LinuxInfo.DfRowOfPaddedFields | LINUX.py:48-69 | The same holds whatever non-empty runs of whitespace separate the fields, as in df's column-aligned output. |
| LinuxInfo.DfRowExample | LINUX.py:48-69 | A 100 GiB ext4 root with 50 GiB available is reported as ("/", "ext4", 50, 100). |
| WindowsInfo.OsVersion | WINDOWS.py:8-28 | get_os_version as written: it returns no name exactly for major 6 with a minor above 3. |
| WindowsInfo.OsVersionSixFourIsNone | WINDOWS.py:14-22 | Version 6.4 gets no name. |
| WindowsInfo.GenericNameShape | WINDOWS.py:26 | The generic name is "Windows ", the major, '.', the minor, and splitting it at the first '.' gives back both numbers. |
| WindowsInfo.GenericNameInjective | WINDOWS.py:26 | Different versions never share a generic name. |
| WindowsInfo.OsVersionGenericInjective | WINDOWS.py:23-26 | Two versions that fall through to the generic name share a name only when they are the same version. |
| WindowsInfo.OsVersionIntendedAgrees | WINDOWS.py:8-28 | The corrected names agree with the function wherever it returns a name, and give the generic name where it returns none. |
| WindowsInfo.OsVersionIntendedInjective | WINDOWS.py:14-26 | Under the corrected names, no two versions outside the table share a name. |
| WindowsInfo.GetLogicalDriveRoots | WINDOWS.py:149-154 | The loop lists `RootsBelow(mask, 26)`: the root of each letter whose bit is set. |
| WindowsInfo.RootsBelowMembers | WINDOWS.py:151-153 | A drive is listed exactly when it is the root of a set bit below the letters seen. |
| WindowsInfo.RootListedIffBit | WINDOWS.py:151-154 | Drive `X:\` is listed if and only if bit X of the mask is set. |
| WindowsInfo.RootInjective | WINDOWS.py:153 | Different bits give different roots. |
| WindowsInfo.RootsAscending | WINDOWS.py:151-153 | Every root has three characters, and the letters come in strictly ascending order, so no drive is repeated. |
| WindowsInfo.RootsCount | WINDOWS.py:150-154 | The number of drives is the number of set bits among the 26 low bits of the mask. |
| WindowsInfo.RootsBelowHighBits | WINDOWS.py:151-154 | Letters past the highest set bit of a non-negative mask add nothing. |
| WindowsInfo.RootsExample | WINDOWS.py:150-154 | Mask 0b101 lists `A:\` then `C:\`. |
| WindowsInfo.MemoryInfo | WINDOWS.py:50-68 | get_memory_info as written: no figures exactly when the native call fails, and every MB figure read from the structure is non-negative. Its meaning is `MemoryInfoMeaning`. |
| WindowsInfo.MemoryInfoMeaning | WINDOWS.py:50-68 | No figures exactly when the native call fails; otherwise each MB figure is its byte count rounded down to whole MiB, used is total minus available, and the load is passed through. |
| WindowsInfo.UsedPhysNonNegative | WINDOWS.py:51-53 | Used memory is never negative while available memory does not exceed the total. |
| WindowsInfo.VirtualWithinOne | WINDOWS.py:51-65 | The virtual figure is at least the sum of the rounded physical and page-file figures, and at most one more. |
| WindowsInfo.PerformanceInfo | WINDOWS.py:133-142 | get_performance_info as written: no figures exactly when the native call fails, and both commit figures are non-negative. Its meaning is `PerformanceInfoMeaning`. |
| WindowsInfo.PerformanceInfoMeaning | WINDOWS.py:133-142 | No figures exactly when the native call fails; otherwise each commit figure is pages times page size rounded down to whole MiB. |
| WindowsInfo.CommitWithinLimit | WINDOWS.py:134-136 | A commit total within the limit is reported within the limit. |
| WindowsInfo.Architecture | WINDOWS.py:78-93 | The architecture as written: always one of "x64 (AMD64)", "ARM64", "ARM", "x64" and "x86". Its meaning is `ArchitectureClasses`. |
| WindowsInfo.ArchitectureClasses | WINDOWS.py:78-93 | AMD64 wins over everything, ARM64 is checked before ARM, and a machine with none of the three keeps the word-size default, which is x64 exactly when `sys.maxsize > 2 ** 32`. |
| WindowsInfo.Arm64IsNotArm | WINDOWS.py:84-89 | A machine naming ARM64 and not AMD64 is reported as ARM64, never plain ARM. |
| PyStr.SplitOnceUnique | LINUX.py:27 | `split(c, 1)` cuts at the first c: any decomposition whose first part is free of c is the result. |
| PyStr.JoinSplit | LINUX.py:44 | `split('\n')` loses nothing: joining the parts with '\n' gives back the string. |
| PyStr.SplitWhitespaceJoin | LINUX.py:48 | `split()` of non-empty whitespace-free fields joined by spaces gives back those fields. |
| PyStr.TrimLeftRun | LINUX.py:48 | Stripping leading whitespace skips any whitespace run put in front of a string. |
| PyStr.SplitWhitespaceSkipsRun | LINUX.py:48 | `split()` ignores a run of whitespace of any length and kind before the string. |
| PyStr.SplitWhitespaceRun | LINUX.py:48 | A field followed by any non-empty whitespace run is the first field `split()` returns, and the rest is split on its own. |
| PyStr.SplitWhitespacePadded | LINUX.py:48 | `split()` of whitespace-free fields separated by arbitrary non-empty whitespace runs gives back those fields. |
| PyStr.StripOf | LINUX.py:44 | `strip` is determined by its result: a run of stripped characters, a string starting and ending with other characters, and another run strip to that string. |
| PyStr.StripTrailingRun | LINUX.py:44 | A trailing run of stripped characters, such as df's final newline, is removed and nothing else. |
| PyStr.SplitAfterFirst | LINUX.py:44 | `split(c)` of a first part free of c, then c, then the rest is that first part followed by the split of the rest. |
| PyStr.StripMeaning | LINUX.py:28 | `strip` cuts a run of stripped characters from each end and nothing else (s is left run + result + right run), leaves none at either end of the result, keeps a string without any, and empties one made only of them. |
| PyStr.ParseNatToString | LINUX.py:30-33 | `int(str(n)) == n` for every natural number (the interpreter's 4300-digit conversion limit is not modelled). |
| PyStr.SplitJoin | LINUX.py:44 | The inverse of `JoinSplit`: parts free of '\n', joined with '\n', split back into the same parts. |
| PyStr.SplitWhitespaceFields | LINUX.py:48 | Every field `split()` returns is non-empty and free of whitespace. |

## Left out

- Opening `/etc/os-release` and `/proc/meminfo`, running `df`, and the `try`/`except` around them: their outcome is an input. For meminfo it is the lines read, or `None` when the file cannot be opened; for `df` it is the standard output, or `None` when it cannot be run; for os-release it is the lines read before any failure (see the last line of this section).
- The exit status of `df`: the script ignores it and parses whatever standard output there is, and so does the model.
- `int()` on non-ASCII Unicode digits and on whitespace around the digits: the fields reaching `int()` come from `split()` and are whitespace-free, and only ASCII digits are modelled.
- The per-drive free and total space computation of the Windows script (`GetDiskFreeSpaceExW` and the float division to GB): a native query and floating point.
- `multiprocessing.cpu_count()`, `get_computer_and_user_info` and the environment lookups: host queries with nothing to compute.
- PyStr.ParseInt: does not model the interpreter's limit on decimal conversions (by default `int()` and `str()` raise ValueError for more than 4300 digits); such a field would zero the meminfo report or empty the df list, while the model parses digit strings of any length.
- PyStr.ParseNatToString: holds for every n in the model; in the interpreter `str(n)` itself raises once n has more than 4300 digits, for the same limit.
- The `main` functions and every `print`, including the diagnostic message printed before `get_drives_info` returns [].
- The ctypes structure layouts and `sizeof`: only the fields the scripts read are modelled, as unbounded naturals.
- A read error part-way through os-release is modelled by the lines read before it; the result is the same, since an error before any PRETTY_NAME line also gives "Unknown".

## Findings

| source | as written | input that shows it | evidently intended | confidence | as-written member | corrected member |
|---|---|---|---|---|---|---|
| WINDOWS.py:14-22 | The major-6 branch has no `else`, so a minor above 3 falls off the end of the function and it returns `None`. | Version 6.4, as reported by the Windows 10 technical previews. | The generic "Windows 6.4" name that the final `else` gives every other unlisted version. | not executed | WindowsInfo.OsVersionSixFourIsNone | WindowsInfo.OsVersionIntendedAgrees |
