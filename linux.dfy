/**
 * The parsing core of LINUX.py: the OS name taken from os-release lines, the
 * memory figures taken from /proc/meminfo lines and the disk table taken from
 * the output of `df -B1 -T`. Opening the files and running `df` are not part
 * of the model: what they return is the input of each operation.
 */
module LinuxInfo {
  import opened Wrappers
  import opened PyStr

  // ---------------------------------------------------------------------------
  // get_os_info
  // ---------------------------------------------------------------------------

  const PrettyKey: string := "PRETTY_NAME="

  /** `line.startswith('PRETTY_NAME=')` */
  predicate IsPrettyLine(line: string)
  {
    StartsWith(line, PrettyKey)
  }

  /**
   * `line.split('=', 1)[1].strip().strip('"')` for a PRETTY_NAME line: the text
   * after the key's own '=' (PrettyValueAfterFirstEquals), stripped of
   * whitespace and then of double quotes.
   */
  function PrettyValue(line: string): (v: string)
    requires IsPrettyLine(line)
    ensures |v| <= |line| - |PrettyKey|
    ensures v != [] ==> v[0] != '"' && v[|v| - 1] != '"'
  {
    var inner := Strip(line[|PrettyKey|..], Whitespace);
    StripEnds(line[|PrettyKey|..], Whitespace);
    StripEnds(inner, {'"'});
    Strip(inner, {'"'})
  }

  /** In a PRETTY_NAME line the first '=' is the one that ends the key. */
  lemma PrettyValueAfterFirstEquals(line: string)
    requires IsPrettyLine(line)
    ensures SplitOnce(line, '=') == Some(("PRETTY_NAME", line[|PrettyKey|..]))
  {
    assert line[..|PrettyKey| - 1] == "PRETTY_NAME" && line[|PrettyKey| - 1] == '=';
    assert line == line[..|PrettyKey| - 1] + ['='] + line[|PrettyKey|..];
    SplitOnceUnique(line, '=', line[..|PrettyKey| - 1], line[|PrettyKey|..]);
  }

  /**
   * The usual os-release form `PRETTY_NAME="<name>"` followed by a newline
   * yields the name itself, inner spaces included. Whitespace goes before the
   * quotes do, so spaces just inside the quotes are kept.
   */
  lemma PrettyValueQuoted(name: string)
    requires name != []
    requires name[0] != '"' && name[|name| - 1] != '"'
    ensures IsPrettyLine(PrettyKey + ['"'] + name + ['"', '\n'])
    ensures PrettyValue(PrettyKey + ['"'] + name + ['"', '\n']) == name
  {
    var line := PrettyKey + ['"'] + name + ['"', '\n'];
    assert line[..|PrettyKey|] == PrettyKey;
    var quoted := ['"'] + name + ['"'];
    assert line[|PrettyKey|..] == quoted + ['\n'];
    assert IsSpace('\n') && !IsSpace('"');
    StripTrailing(quoted, '\n', Whitespace);
    StripSurrounded(name, '"', '"', {'"'});
  }

  /** An unquoted value loses its trailing newline and nothing else. */
  lemma PrettyValueBare(name: string)
    requires name != []
    requires name[0] !in Whitespace && name[0] != '"'
    requires name[|name| - 1] !in Whitespace && name[|name| - 1] != '"'
    ensures IsPrettyLine(PrettyKey + name + ['\n'])
    ensures PrettyValue(PrettyKey + name + ['\n']) == name
  {
    var line := PrettyKey + name + ['\n'];
    assert line[..|PrettyKey|] == PrettyKey;
    assert line[|PrettyKey|..] == name + ['\n'];
    assert IsSpace('\n');
    StripTrailing(name, '\n', Whitespace);
    StripKeeps(name, {'"'});
  }

  /** The position of the first PRETTY_NAME line, if there is one. */
  function FirstPretty(lines: seq<string>): (r: Option<nat>)
    ensures r.None? ==> forall j :: 0 <= j < |lines| ==> !IsPrettyLine(lines[j])
    ensures r.Some? ==> r.value < |lines| && IsPrettyLine(lines[r.value])
                        && forall j :: 0 <= j < r.value ==> !IsPrettyLine(lines[j])
  {
    if lines == [] then None
    else if IsPrettyLine(lines[0]) then Some(0)
    else match FirstPretty(lines[1..])
      case None => None
      case Some(i) => Some(i + 1)
  }

  /** What get_os_info returns for the lines of os-release it managed to read. */
  function OsName(lines: seq<string>): (name: string)
    ensures (forall i :: 0 <= i < |lines| ==> !IsPrettyLine(lines[i])) ==> name == "Unknown"
  {
    match FirstPretty(lines)
    case None => "Unknown"
    case Some(i) => PrettyValue(lines[i])
  }

  /** The scan of get_os_info: the first PRETTY_NAME line wins, else "Unknown". */
  method GetOsInfo(lines: seq<string>) returns (name: string)
    ensures name == OsName(lines)
  {
    var i := 0;
    while i < |lines|
      invariant 0 <= i <= |lines|
      invariant forall j :: 0 <= j < i ==> !IsPrettyLine(lines[j])
    {
      if IsPrettyLine(lines[i]) {
        FirstPrettyUnique(lines, i);
        return PrettyValue(lines[i]);
      }
      i := i + 1;
    }
    return "Unknown";
  }

  /** A PRETTY_NAME line with none before it is the first one. */
  lemma FirstPrettyUnique(lines: seq<string>, i: nat)
    requires i < |lines| && IsPrettyLine(lines[i])
    requires forall j :: 0 <= j < i ==> !IsPrettyLine(lines[j])
    ensures FirstPretty(lines) == Some(i)
  {
  }

  /**
   * The name comes from the first line that starts with PRETTY_NAME=, and is
   * exactly "Unknown" when no line does.
   */
  lemma OsNameFirstMatch(lines: seq<string>)
    ensures (forall i :: 0 <= i < |lines| ==> !IsPrettyLine(lines[i])) ==> OsName(lines) == "Unknown"
    ensures forall i :: 0 <= i < |lines| && IsPrettyLine(lines[i]) && (forall j :: 0 <= j < i ==> !IsPrettyLine(lines[j]))
                       ==> OsName(lines) == PrettyValue(lines[i])
  {
    forall i | 0 <= i < |lines| && IsPrettyLine(lines[i]) && (forall j :: 0 <= j < i ==> !IsPrettyLine(lines[j]))
      ensures OsName(lines) == PrettyValue(lines[i])
    {
      FirstPrettyUnique(lines, i);
    }
  }

  /** Lines after the first PRETTY_NAME line never change the name. */
  lemma OsNameIgnoresLaterLines(lines: seq<string>, more: seq<string>)
    requires exists i :: 0 <= i < |lines| && IsPrettyLine(lines[i])
    ensures OsName(lines + more) == OsName(lines)
  {
    var i := FirstPretty(lines).value;
    var all := lines + more;
    assert all[i] == lines[i];
    forall j | 0 <= j < i ensures !IsPrettyLine(all[j]) {
      assert all[j] == lines[j];
    }
    FirstPrettyUnique(all, i);
  }

  // ---------------------------------------------------------------------------
  // get_memory_info
  // ---------------------------------------------------------------------------

  /**
   * The figures get_memory_info returns, in the order of its nested tuple
   * `((free, total), (swap_total, swap_free))`, in MB.
   */
  datatype MemoryReport = MemoryReport(ramFreeMb: int, ramTotalMb: int, swapTotalMb: int, swapFreeMb: int)

  /** `((0, 0), (0, 0))`, the result on any exception. */
  const NoMemory := MemoryReport(0, 0, 0, 0)

  /** The key and value the loop stores for one line, when the line holds a ':'. */
  function MemEntry(line: string): (e: Option<(string, string)>)
    ensures e.None? <==> ':' !in line
  {
    match SplitOnce(line, ':')
    case None => None
    case Some((key, value)) => Some((Strip(key, Whitespace), Strip(value, Whitespace)))
  }

  /**
   * What the loop stores for a line: the text before its first ':' as key
   * and the rest as value, both stripped of whitespace.
   */
  lemma MemEntryMeaning(line: string, before: string, after: string)
    requires line == before + [':'] + after && ':' !in before
    ensures MemEntry(line) == Some((Strip(before, Whitespace), Strip(after, Whitespace)))
  {
    SplitOnceUnique(line, ':', before, after);
  }

  /** True when the entry stores a value under key. */
  predicate Stores(entry: Option<(string, string)>, key: string)
  {
    entry.Some? && entry.value.0 == key
  }

  /** True when the line stores a value under key. */
  predicate Defines(line: string, key: string)
  {
    Stores(MemEntry(line), key)
  }

  /** A dict after `d[key] = value` for each entry in turn, skipping None. */
  function Assign(entries: seq<Option<(string, string)>>): map<string, string>
  {
    if entries == [] then map[]
    else
      var table := Assign(entries[..|entries| - 1]);
      match entries[|entries| - 1]
      case None => table
      case Some((key, value)) => table[key := value]
  }

  /** The entry of each line, in order. */
  function MemEntries(lines: seq<string>): (entries: seq<Option<(string, string)>>)
    ensures |entries| == |lines| && forall i :: 0 <= i < |lines| ==> entries[i] == MemEntry(lines[i])
  {
    seq(|lines|, i requires 0 <= i < |lines| => MemEntry(lines[i]))
  }

  /** The `mem_info` dict once the loop has seen all of lines. */
  function MemTable(lines: seq<string>): map<string, string>
  {
    Assign(MemEntries(lines))
  }

  /** One more line updates the table as one pass of the loop does. */
  lemma MemTableSnoc(lines: seq<string>, i: nat)
    requires i < |lines|
    ensures MemTable(lines[..i + 1]) ==
      match MemEntry(lines[i])
      case None => MemTable(lines[..i])
      case Some((key, value)) => MemTable(lines[..i])[key := value]
  {
    assert MemEntries(lines[..i + 1])[..i] == MemEntries(lines[..i]);
  }

  /** `int(mem_info.get(key, '0 kB').split()[0])`, None where Python raises. */
  function LeadingKb(table: map<string, string>, key: string): (n: Option<int>)
    ensures key !in table ==> n == Some(0)
    ensures n.None? <==> key in table && (SplitWhitespace(table[key]) == [] || ParseInt(SplitWhitespace(table[key])[0]).None?)
  {
    ZeroKbFields();
    ParseNatToString(0);
    assert NatToString(0) == "0";
    var text := if key in table then table[key] else "0 kB";
    var fields := SplitWhitespace(text);
    if fields == [] then None else ParseInt(fields[0])
  }

  /**
   * The four lookups after the loop: the report in MB, or None when one of
   * them raises.
   */
  function ReportOf(table: map<string, string>): (r: Option<MemoryReport>)
    ensures ("MemTotal" !in table && "MemAvailable" !in table && "SwapTotal" !in table && "SwapFree" !in table)
              ==> r == Some(NoMemory)
  {
    var total, free := LeadingKb(table, "MemTotal"), LeadingKb(table, "MemAvailable");
    var swapTotal, swapFree := LeadingKb(table, "SwapTotal"), LeadingKb(table, "SwapFree");
    if total.None? || free.None? || swapTotal.None? || swapFree.None? then None
    else Some(MemoryReport(free.value / 1024, total.value / 1024, swapTotal.value / 1024, swapFree.value / 1024))
  }

  /** What get_memory_info returns; None stands for a file that could not be read. */
  function MemoryOf(file: Option<seq<string>>): (r: MemoryReport)
    ensures file.Some? && MemTable(file.value) == map[] ==> r == NoMemory
  {
    if file.None? then NoMemory
    else
      match ReportOf(MemTable(file.value))
      case None => NoMemory
      case Some(report) => report
  }

  /** The loop of get_memory_info that fills `mem_info` from the lines of the file. */
  method BuildMemInfo(lines: seq<string>) returns (memInfo: map<string, string>)
    ensures memInfo == MemTable(lines)
  {
    memInfo := map[];
    var i := 0;
    while i < |lines|
      invariant 0 <= i <= |lines|
      invariant memInfo == MemTable(lines[..i])
    {
      var line := lines[i];
      MemTableSnoc(lines, i);
      if ':' in line {
        var parts := SplitOnce(line, ':').value;
        assert MemEntry(line) == Some((Strip(parts.0, Whitespace), Strip(parts.1, Whitespace)));
        memInfo := memInfo[Strip(parts.0, Whitespace) := Strip(parts.1, Whitespace)];
      }
      i := i + 1;
    }
    assert lines[..|lines|] == lines;
  }

  /** get_memory_info: the dict of the file, then the four lookups, zeros on any failure. */
  method GetMemoryInfo(file: Option<seq<string>>) returns (report: MemoryReport)
    ensures report == MemoryOf(file)
  {
    if file.None? {
      return NoMemory;
    }
    var memInfo := BuildMemInfo(file.value);
    var figures := ReportOf(memInfo);
    if figures.None? {
      return NoMemory;
    }
    return figures.value;
  }

  /**
   * A key is in the dict exactly when some entry stores it, and its value is
   * the one stored by the last entry that stores it.
   */
  lemma {:induction false} AssignLastWins(entries: seq<Option<(string, string)>>, key: string)
    ensures key in Assign(entries) <==> exists i :: 0 <= i < |entries| && Stores(entries[i], key)
    ensures forall i :: 0 <= i < |entries| && Stores(entries[i], key) && (forall j :: i < j < |entries| ==> !Stores(entries[j], key))
                       ==> key in Assign(entries) && Assign(entries)[key] == entries[i].value.1
  {
    if entries != [] {
      var init, last := entries[..|entries| - 1], entries[|entries| - 1];
      AssignLastWins(init, key);
      if Stores(last, key) {
        assert Stores(entries[|entries| - 1], key);
      } else if key in Assign(entries) {
        var i :| 0 <= i < |init| && Stores(init[i], key);
        assert init[i] == entries[i];
      } else {
        forall i | 0 <= i < |entries| ensures !Stores(entries[i], key) {
          if i < |init| { assert init[i] == entries[i]; }
        }
      }
      forall i | 0 <= i < |entries| && Stores(entries[i], key) && (forall j :: i < j < |entries| ==> !Stores(entries[j], key))
        ensures key in Assign(entries) && Assign(entries)[key] == entries[i].value.1
      {
        if i < |init| {
          assert init[i] == entries[i];
          forall j | i < j < |init| ensures !Stores(init[j], key) {
            assert init[j] == entries[j];
          }
        }
      }
    }
  }

  /**
   * A key is in the table exactly when some line defines it, and its value is
   * the one stored by the last line that defines it.
   */
  lemma MemTableLastWins(lines: seq<string>, key: string)
    ensures key in MemTable(lines) <==> exists i :: 0 <= i < |lines| && Defines(lines[i], key)
    ensures forall i :: 0 <= i < |lines| && Defines(lines[i], key) && (forall j :: i < j < |lines| ==> !Defines(lines[j], key))
                       ==> key in MemTable(lines) && MemTable(lines)[key] == MemEntry(lines[i]).value.1
  {
    var entries := MemEntries(lines);
    AssignLastWins(entries, key);
    if key in MemTable(lines) {
      var i :| 0 <= i < |entries| && Stores(entries[i], key);
      assert Defines(lines[i], key);
    }
    forall i | 0 <= i < |lines| && Defines(lines[i], key) && (forall j :: i < j < |lines| ==> !Defines(lines[j], key))
      ensures key in MemTable(lines) && MemTable(lines)[key] == MemEntry(lines[i]).value.1
    {
      assert Stores(entries[i], key);
      forall j | i < j < |entries| ensures !Stores(entries[j], key) {
        assert !Defines(lines[j], key);
      }
    }
  }

  /** A `/proc/meminfo` value in its usual form, `<n> kB`. */
  function KbText(kb: nat): string
  {
    NatToString(kb) + " kB"
  }

  /** A `/proc/meminfo` line as `readlines` returns it: `<key>: <n> kB` and a newline. */
  function MemLine(key: string, kb: nat): string
  {
    key + ": " + KbText(kb) + "\n"
  }

  /** The loop stores such a line under its key, both sides stripped. */
  lemma MemEntryOfLine(key: string, kb: nat)
    requires IsField(key) && ':' !in key
    ensures MemEntry(MemLine(key, kb)) == Some((key, KbText(kb)))
  {
    var text := KbText(kb);
    var after := [' '] + text + ['\n'];
    assert MemLine(key, kb) == key + [':'] + after;
    SplitOnceUnique(MemLine(key, kb), ':', key, after);
    assert key[0] in key && key[|key| - 1] in key;
    StripKeeps(key, Whitespace);
    assert IsDigit(text[0]) && text[|text| - 1] == 'B';
    assert IsSpace(' ') && IsSpace('\n');
    StripSurrounded(text, ' ', '\n', Whitespace);
  }

  /** `'<n> kB'.split()[0]` parses back to n. */
  lemma LeadingKbOfText(table: map<string, string>, key: string, kb: nat)
    requires key in table && table[key] == KbText(kb)
    ensures LeadingKb(table, key) == Some(kb)
  {
    var fields := [NatToString(kb), "kB"];
    DigitsAreFields(kb);
    forall i | 0 <= i < |fields| ensures IsField(fields[i]) {
    }
    assert Join(fields, ' ') == KbText(kb);
    SplitWhitespaceJoin(fields);
    ParseNatToString(kb);
  }

  /**
   * A figure whose last line reads `<key>: <n> kB` is n, whatever other lines
   * the file holds before or after it.
   */
  lemma LastMemLineWins(lines: seq<string>, i: nat, key: string, kb: nat)
    requires IsField(key) && ':' !in key
    requires i < |lines| && lines[i] == MemLine(key, kb)
    requires forall j :: i < j < |lines| ==> !Defines(lines[j], key)
    ensures LeadingKb(MemTable(lines), key) == Some(kb)
  {
    MemEntryOfLine(key, kb);
    MemTableLastWins(lines, key);
    assert Defines(lines[i], key);
    LeadingKbOfText(MemTable(lines), key, kb);
  }

  /** The lines of a file holding one `<key>: <n> kB` line per pair, in order. */
  function MemLines(pairs: seq<(string, nat)>): (lines: seq<string>)
    ensures |lines| == |pairs| && forall i :: 0 <= i < |pairs| ==> lines[i] == MemLine(pairs[i].0, pairs[i].1)
  {
    seq(|pairs|, i requires 0 <= i < |pairs| => MemLine(pairs[i].0, pairs[i].1))
  }

  /** A key made of ASCII letters is a single field without a ':'. */
  lemma LetterKey(key: string)
    requires key != [] && forall i :: 0 <= i < |key| ==> 'A' <= key[i] <= 'Z' || 'a' <= key[i] <= 'z'
    ensures IsField(key) && ':' !in key
  {
    forall i | 0 <= i < |key| ensures key[i] !in Whitespace {
      assert !IsSpace(key[i]);
    }
  }

  /** In a file of well-formed lines, each key reads as the number on its last line. */
  lemma MemLinesLastWins(pairs: seq<(string, nat)>, i: nat)
    requires forall k :: 0 <= k < |pairs| ==> IsField(pairs[k].0) && ':' !in pairs[k].0
    requires i < |pairs| && forall j :: i < j < |pairs| ==> pairs[j].0 != pairs[i].0
    ensures LeadingKb(MemTable(MemLines(pairs)), pairs[i].0) == Some(pairs[i].1)
  {
    var lines, key := MemLines(pairs), pairs[i].0;
    forall j | i < j < |lines| ensures !Defines(lines[j], key) {
      MemEntryOfLine(pairs[j].0, pairs[j].1);
    }
    LastMemLineWins(lines, i, key, pairs[i].1);
  }

  /** The head of a typical `/proc/meminfo`, one line per figure. */
  function MeminfoHead(total: nat, free: nat, available: nat, swapTotal: nat, swapFree: nat): seq<(string, nat)>
  {
    [("MemTotal", total), ("MemFree", free), ("MemAvailable", available), ("SwapTotal", swapTotal), ("SwapFree", swapFree)]
  }

  /** Each figure of that head reads as the number on its own line. */
  lemma MeminfoHeadFigure(total: nat, free: nat, available: nat, swapTotal: nat, swapFree: nat, i: nat)
    requires i < 5
    ensures var pairs := MeminfoHead(total, free, available, swapTotal, swapFree);
            LeadingKb(MemTable(MemLines(pairs)), pairs[i].0) == Some(pairs[i].1)
  {
    var pairs := MeminfoHead(total, free, available, swapTotal, swapFree);
    forall k | 0 <= k < |pairs| ensures IsField(pairs[k].0) && ':' !in pairs[k].0 {
      LetterKey(pairs[k].0);
    }
    forall j | i < j < |pairs| ensures pairs[j].0 != pairs[i].0 {
      assert |pairs[j].0| != |pairs[i].0| || pairs[j].0[0] != pairs[i].0[0];
    }
    MemLinesLastWins(pairs, i);
  }

  /**
   * Reading that head, RAM comes back as (available, total) and swap as
   * (total, free), each in whole MB; MemFree is not used.
   */
  lemma MemoryOfMeminfo(total: nat, free: nat, available: nat, swapTotal: nat, swapFree: nat)
    ensures MemoryOf(Some(MemLines(MeminfoHead(total, free, available, swapTotal, swapFree))))
            == MemoryReport(available / 1024, total / 1024, swapTotal / 1024, swapFree / 1024)
  {
    var lines := MemLines(MeminfoHead(total, free, available, swapTotal, swapFree));
    var table := MemTable(lines);
    assert LeadingKb(table, "MemTotal") == Some(total) by {
      MeminfoHeadFigure(total, free, available, swapTotal, swapFree, 0);
    }
    assert LeadingKb(table, "MemAvailable") == Some(available) by {
      MeminfoHeadFigure(total, free, available, swapTotal, swapFree, 2);
    }
    assert LeadingKb(table, "SwapTotal") == Some(swapTotal) by {
      MeminfoHeadFigure(total, free, available, swapTotal, swapFree, 3);
    }
    assert LeadingKb(table, "SwapFree") == Some(swapFree) by {
      MeminfoHeadFigure(total, free, available, swapTotal, swapFree, 4);
    }
    MemoryOfFigures(lines, total, available, swapTotal, swapFree);
  }

  /**
   * A tracked key whose last defining line stores an empty value, or one
   * whose first word `int()` rejects, makes the whole report zeros.
   */
  lemma MemoryOfUnparsable(lines: seq<string>, i: nat, key: string, value: string)
    requires key in {"MemTotal", "MemAvailable", "SwapTotal", "SwapFree"}
    requires i < |lines| && MemEntry(lines[i]) == Some((key, value))
    requires forall j :: i < j < |lines| ==> !Defines(lines[j], key)
    requires SplitWhitespace(value) == [] || ParseInt(SplitWhitespace(value)[0]).None?
    ensures MemoryOf(Some(lines)) == NoMemory
  {
    MemTableLastWins(lines, key);
    assert Defines(lines[i], key);
    var table := MemTable(lines);
    assert key in table && table[key] == value;
    assert LeadingKb(table, key).None?;
    assert ReportOf(table).None?;
  }

  /** Four figures that parse give the report of those figures in MB. */
  lemma MemoryOfFigures(lines: seq<string>, total: int, available: int, swapTotal: int, swapFree: int)
    requires LeadingKb(MemTable(lines), "MemTotal") == Some(total)
    requires LeadingKb(MemTable(lines), "MemAvailable") == Some(available)
    requires LeadingKb(MemTable(lines), "SwapTotal") == Some(swapTotal)
    requires LeadingKb(MemTable(lines), "SwapFree") == Some(swapFree)
    ensures MemoryOf(Some(lines)) == MemoryReport(available / 1024, total / 1024, swapTotal / 1024, swapFree / 1024)
  {
  }

  /** `'0 kB'.split()` is `['0', 'kB']`. */
  lemma ZeroKbFields()
    ensures SplitWhitespace("0 kB") == ["0", "kB"]
  {
    var fields := ["0", "kB"];
    forall i | 0 <= i < |fields| ensures IsField(fields[i]) {
    }
    assert Join(fields, ' ') == "0 kB";
    SplitWhitespaceJoin(fields);
  }

  /**
   * All or nothing: the report is all zeros when the file cannot be read or
   * any of the four figures fails to parse; otherwise each figure is the
   * kB value rounded down to whole MB, RAM as (free, total) and swap as
   * (total, free).
   */
  lemma MemoryOfAllOrNothing(file: Option<seq<string>>)
    ensures file.None? ==> MemoryOf(file) == NoMemory
    ensures file.Some? ==>
      var table := MemTable(file.value);
      var total, free := LeadingKb(table, "MemTotal"), LeadingKb(table, "MemAvailable");
      var swapTotal, swapFree := LeadingKb(table, "SwapTotal"), LeadingKb(table, "SwapFree");
      var r := MemoryOf(file);
      && ((total.None? || free.None? || swapTotal.None? || swapFree.None?) ==> r == NoMemory)
      && ((total.Some? && free.Some? && swapTotal.Some? && swapFree.Some?) ==>
            && r.ramFreeMb * 1024 <= free.value < r.ramFreeMb * 1024 + 1024
            && r.ramTotalMb * 1024 <= total.value < r.ramTotalMb * 1024 + 1024
            && r.swapTotalMb * 1024 <= swapTotal.value < r.swapTotalMb * 1024 + 1024
            && r.swapFreeMb * 1024 <= swapFree.value < r.swapFreeMb * 1024 + 1024)
  {
    if file.Some? {
      var report := ReportOf(MemTable(file.value));
      assert report.Some? ==> MemoryOf(file) == report.value;
    }
  }

  // ---------------------------------------------------------------------------
  // get_drives_info
  // ---------------------------------------------------------------------------

  /** One entry of the list get_drives_info returns. */
  datatype LinuxDrive = LinuxDrive(mountpoint: string, fstype: string, freeGb: int, totalGb: int)

  /** The pseudo file systems the loop skips. */
  const PseudoFsTypes: set<string> := {"tmpfs", "devtmpfs", "squashfs", "overlay"}

  /** `1024 * 1024 * 1024` */
  const GiB: int := 1073741824

  /** What one row of df output does to the result. */
  datatype RowOutcome =
    | Skip                    // too few fields, or a pseudo file system
    | Keep(drive: LinuxDrive) // appended to the list
    | Fail                    // a size field `int()` rejects: the whole call raises

  /** The body of the loop of get_drives_info for one row. */
  function DfRow(line: string): (r: RowOutcome)
    ensures !r.Skip? ==> |SplitWhitespace(line)| >= 7
    ensures r.Keep? ==> r.drive.fstype !in PseudoFsTypes
  {
    var parts := SplitWhitespace(line);
    if |parts| < 7 then Skip
    else
      var total, used, avail := ParseInt(parts[2]), ParseInt(parts[3]), ParseInt(parts[4]);
      if total.None? || used.None? || avail.None? then Fail
      else if parts[1] in PseudoFsTypes then Skip
      else Keep(LinuxDrive(parts[6], parts[1], avail.value / GiB, total.value / GiB))
  }

  /** The outcome of each row, in order. */
  function Outcomes(rows: seq<string>): (outs: seq<RowOutcome>)
    ensures |outs| == |rows| && forall i :: 0 <= i < |rows| ==> outs[i] == DfRow(rows[i])
  {
    seq(|rows|, i requires 0 <= i < |rows| => DfRow(rows[i]))
  }

  /** The list after the loop has seen rows with these outcomes, or None once one has raised. */
  function Collect(outs: seq<RowOutcome>): Option<seq<LinuxDrive>>
  {
    if outs == [] then Some([])
    else match Collect(outs[..|outs| - 1])
      case None => None
      case Some(drives) =>
        match outs[|outs| - 1]
        case Fail => None
        case Skip => Some(drives)
        case Keep(d) => Some(drives + [d])
  }

  /** The drives after the loop has seen rows, or None once a row has raised. */
  function DrivesFromRows(rows: seq<string>): Option<seq<LinuxDrive>>
  {
    Collect(Outcomes(rows))
  }

  /** `result.stdout.strip().split('\n')[1:]`: every line but the header. */
  function DfRows(out: string): seq<string>
  {
    Split(Strip(out, Whitespace), '\n')[1..]
  }

  /** What get_drives_info returns; None stands for a df that could not be run. */
  function DrivesOf(stdout: Option<string>): (r: seq<LinuxDrive>)
    ensures forall d :: d in r ==> d.fstype !in PseudoFsTypes
  {
    match stdout
    case None => []
    case Some(out) =>
      DrivesFromRowsMeaning(DfRows(out));
      KeptDrivesFromRows(DfRows(out));
      match DrivesFromRows(DfRows(out))
      case None => []
      case Some(drives) => drives
  }

  /** One more row updates the list as one pass of the loop does. */
  lemma DrivesFromRowsSnoc(rows: seq<string>, i: nat)
    requires i < |rows|
    ensures DrivesFromRows(rows[..i + 1]) ==
      match DrivesFromRows(rows[..i])
      case None => None
      case Some(drives) =>
        match DfRow(rows[i])
        case Fail => None
        case Skip => Some(drives)
        case Keep(d) => Some(drives + [d])
  {
    assert Outcomes(rows[..i + 1])[..i] == Outcomes(rows[..i]);
  }

  /** Once an outcome has raised, later ones cannot bring the list back. */
  lemma {:induction false} CollectFailureIsFinal(outs: seq<RowOutcome>, k: nat)
    requires k <= |outs| && Collect(outs[..k]) == None
    ensures Collect(outs) == None
    decreases |outs|
  {
    if k == |outs| {
      assert outs[..k] == outs;
    } else {
      assert outs[..|outs| - 1][..k] == outs[..k];
      CollectFailureIsFinal(outs[..|outs| - 1], k);
    }
  }

  /** Once a row has raised, later rows cannot bring the list back. */
  lemma FailureIsFinal(rows: seq<string>, k: nat)
    requires k <= |rows| && DrivesFromRows(rows[..k]) == None
    ensures DrivesFromRows(rows) == None
  {
    assert Outcomes(rows)[..k] == Outcomes(rows[..k]);
    CollectFailureIsFinal(Outcomes(rows), k);
  }

  /** The loop of get_drives_info over the rows of df output. */
  method GetDrivesInfo(stdout: Option<string>) returns (drives: seq<LinuxDrive>)
    ensures drives == DrivesOf(stdout)
  {
    if stdout.None? {
      return [];
    }
    var lines := Split(Strip(stdout.value, Whitespace), '\n')[1..];
    drives := [];
    for i := 0 to |lines|
      invariant DrivesFromRows(lines[..i]) == Some(drives)
    {
      DrivesFromRowsSnoc(lines, i);
      var parts := SplitWhitespace(lines[i]);
      if |parts| >= 7 {
        var fstype := parts[1];
        var totalBytes, usedBytes, availableBytes := ParseInt(parts[2]), ParseInt(parts[3]), ParseInt(parts[4]);
        if totalBytes.None? || usedBytes.None? || availableBytes.None? {
          FailureIsFinal(lines, i + 1);
          return [];
        }
        var mountpoint := parts[6];
        if fstype in PseudoFsTypes {
          continue;
        }
        drives := drives + [LinuxDrive(mountpoint, fstype, availableBytes.value / GiB, totalBytes.value / GiB)];
      }
    }
    assert lines[..|lines|] == lines;
  }

  /** No outcome raises. */
  predicate NoFail(outs: seq<RowOutcome>)
  {
    forall i :: 0 <= i < |outs| ==> !outs[i].Fail?
  }

  /** Reference definition: the kept drives, in order. */
  function Kept(outs: seq<RowOutcome>): seq<LinuxDrive>
  {
    if outs == [] then []
    else (if outs[0].Keep? then [outs[0].drive] else []) + Kept(outs[1..])
  }

  lemma {:induction false} KeptSnoc(outs: seq<RowOutcome>, out: RowOutcome)
    ensures Kept(outs + [out]) == Kept(outs) + (if out.Keep? then [out.drive] else [])
  {
    if outs != [] {
      assert (outs + [out])[1..] == outs[1..] + [out];
      KeptSnoc(outs[1..], out);
    }
  }

  /** The loop's list is the kept drives exactly when nothing raises, and None otherwise. */
  lemma {:induction false} CollectMeaning(outs: seq<RowOutcome>)
    ensures Collect(outs) == if NoFail(outs) then Some(Kept(outs)) else None
  {
    if outs != [] {
      var init, last := outs[..|outs| - 1], outs[|outs| - 1];
      CollectMeaning(init);
      assert outs == init + [last];
      KeptSnoc(init, last);
      if NoFail(outs) {
        assert !outs[|outs| - 1].Fail?;
        forall i | 0 <= i < |init| ensures !init[i].Fail? {
          assert init[i] == outs[i];
        }
        match last
        case Skip =>
          assert Kept(init) + [] == Kept(init);
        case Keep(d) =>
        case Fail =>
      } else if NoFail(init) {
        forall i | 0 <= i < |init| ensures !outs[i].Fail? {
          assert outs[i] == init[i];
        }
        assert last.Fail?;
      }
    }
  }

  /** Every kept drive is the drive of some outcome, and there are no more of them than outcomes. */
  lemma {:induction false} KeptFromOutcomes(outs: seq<RowOutcome>)
    ensures |Kept(outs)| <= |outs|
    ensures forall d :: d in Kept(outs) ==> exists i :: 0 <= i < |outs| && outs[i] == Keep(d)
  {
    if outs != [] {
      KeptFromOutcomes(outs[1..]);
      forall d | d in Kept(outs) ensures exists i :: 0 <= i < |outs| && outs[i] == Keep(d) {
        if outs[0].Keep? && d == outs[0].drive {
          assert outs[0] == Keep(d);
        } else {
          assert d in Kept(outs[1..]);
          var i :| 0 <= i < |outs[1..]| && outs[1..][i] == Keep(d);
          assert outs[i + 1] == outs[1..][i];
        }
      }
    }
  }

  /** No row makes the call raise. */
  predicate NoFailingRow(rows: seq<string>)
  {
    forall i :: 0 <= i < |rows| ==> !DfRow(rows[i]).Fail?
  }

  /** The drives of the kept rows, in input order. */
  function KeptDrives(rows: seq<string>): seq<LinuxDrive>
  {
    Kept(Outcomes(rows))
  }

  /**
   * The loop yields the drives of the kept rows, in input order, exactly when
   * no row raises; a single failing row anywhere empties the result.
   */
  lemma DrivesFromRowsMeaning(rows: seq<string>)
    ensures DrivesFromRows(rows) == if NoFailingRow(rows) then Some(KeptDrives(rows)) else None
  {
    CollectMeaning(Outcomes(rows));
    assert NoFailingRow(rows) <==> NoFail(Outcomes(rows));
  }

  /** Every drive kept comes from some row, and none is a pseudo file system. */
  lemma KeptDrivesFromRows(rows: seq<string>)
    ensures |KeptDrives(rows)| <= |rows|
    ensures forall d :: d in KeptDrives(rows) ==>
      d.fstype !in PseudoFsTypes && exists i :: 0 <= i < |rows| && DfRow(rows[i]) == Keep(d)
  {
    var outs := Outcomes(rows);
    KeptFromOutcomes(outs);
    forall d | d in KeptDrives(rows)
      ensures d.fstype !in PseudoFsTypes && exists i :: 0 <= i < |rows| && DfRow(rows[i]) == Keep(d)
    {
      var i :| 0 <= i < |outs| && outs[i] == Keep(d);
      assert DfRow(rows[i]) == Keep(d);
    }
  }

  /**
   * A kept row reports field 6 as mount point, field 1 as type and the byte
   * counts of fields 4 and 2 rounded down to whole GiB; a row with seven or
   * more fields raises when any of fields 2 to 4 is not an integer, whatever
   * its type, and is kept when all three are and its type is not a pseudo
   * file system.
   */
  lemma DfRowMeaning(line: string)
    ensures var parts := SplitWhitespace(line);
      && (DfRow(line).Fail? <==>
            |parts| >= 7 && (ParseInt(parts[2]).None? || ParseInt(parts[3]).None? || ParseInt(parts[4]).None?))
      && (DfRow(line).Keep? ==>
            var d := DfRow(line).drive;
            && |parts| >= 7 && parts[1] !in PseudoFsTypes
            && d.mountpoint == parts[6] && d.fstype == parts[1]
            && d.freeGb * GiB <= ParseInt(parts[4]).value < d.freeGb * GiB + GiB
            && d.totalGb * GiB <= ParseInt(parts[2]).value < d.totalGb * GiB + GiB)
      && ((|parts| >= 7 && ParseInt(parts[2]).Some? && ParseInt(parts[3]).Some? && ParseInt(parts[4]).Some?
           && parts[1] !in PseudoFsTypes) ==>
            DfRow(line) == Keep(LinuxDrive(parts[6], parts[1], ParseInt(parts[4]).value / GiB, ParseInt(parts[2]).value / GiB)))
  {
  }

  /** A row of a pseudo file system whose sizes do not parse still empties the result. */
  lemma PseudoRowCanFail(rows: seq<string>, i: nat)
    requires i < |rows|
    requires var parts := SplitWhitespace(rows[i]);
      |parts| >= 7 && parts[1] in PseudoFsTypes && ParseInt(parts[3]).None?
    ensures DrivesFromRows(rows) == None
  {
    DrivesFromRowsMeaning(rows);
    assert DfRow(rows[i]).Fail?;
  }

  /** Output with nothing after its first line, the header, yields no drives. */
  lemma HeaderOnlyOutput(out: string)
    requires '\n' !in Strip(out, Whitespace)
    ensures DrivesOf(Some(out)) == []
  {
    assert DfRows(out) == [];
  }

  /**
   * Exactly the first line of the output is dropped as the header: every
   * line after it, up to the trailing whitespace, is a row.
   */
  lemma DfRowsAfterHeader(header: string, body: string, trail: string)
    requires header != [] && header[0] !in Whitespace && '\n' !in header
    requires body != [] && body[|body| - 1] !in Whitespace
    requires AllIn(trail, Whitespace)
    ensures DfRows(header + ['\n'] + body + trail) == Split(body, '\n')
  {
    var m := header + ['\n'] + body;
    var lines := Split(body, '\n');
    assert Strip(m + trail, Whitespace) == m by {
      assert m[0] == header[0] && m[|m| - 1] == body[|body| - 1];
      StripTrailingRun(m, trail, Whitespace);
    }
    assert Split(m, '\n') == [header] + lines by {
      SplitAfterFirst(header, body, '\n');
    }
    assert ([header] + lines)[1..] == lines;
  }

  /** A row whose `split()` gives these seven fields is kept, with the sizes rounded down to GiB. */
  lemma DfRowOfSplit(line: string, device: string, fstype: string, total: nat, used: nat, avail: nat, percent: string, mountpoint: string)
    requires SplitWhitespace(line) == [device, fstype, NatToString(total), NatToString(used), NatToString(avail), percent, mountpoint]
    requires fstype !in PseudoFsTypes
    ensures DfRow(line) == Keep(LinuxDrive(mountpoint, fstype, avail / GiB, total / GiB))
  {
    var parts := SplitWhitespace(line);
    ParseNatToString(total);
    ParseNatToString(used);
    ParseNatToString(avail);
    assert ParseInt(parts[2]) == Some(total as int) && ParseInt(parts[3]) == Some(used as int);
    assert ParseInt(parts[4]) == Some(avail as int);
  }

  /** The seven fields of a row, sizes written in decimal, all single fields. */
  lemma RowFields(device: string, fstype: string, total: nat, used: nat, avail: nat, percent: string, mountpoint: string)
    requires IsField(device) && IsField(fstype) && IsField(percent) && IsField(mountpoint)
    ensures var fields := [device, fstype, NatToString(total), NatToString(used), NatToString(avail), percent, mountpoint];
      forall i :: 0 <= i < |fields| ==> IsField(fields[i])
  {
    DigitsAreFields(total);
    DigitsAreFields(used);
    DigitsAreFields(avail);
  }

  /**
   * A df row built from its fields parses back to them: sizes written as
   * decimal numbers come out rounded down to GiB.
   */
  lemma DfRowOfFields(device: string, fstype: string, total: nat, used: nat, avail: nat, percent: string, mountpoint: string)
    requires IsField(device) && IsField(fstype) && IsField(percent) && IsField(mountpoint)
    requires fstype !in PseudoFsTypes
    ensures DfRow(Join([device, fstype, NatToString(total), NatToString(used), NatToString(avail), percent, mountpoint], ' '))
            == Keep(LinuxDrive(mountpoint, fstype, avail / GiB, total / GiB))
  {
    RowFields(device, fstype, total, used, avail, percent, mountpoint);
    var fields := [device, fstype, NatToString(total), NatToString(used), NatToString(avail), percent, mountpoint];
    SplitWhitespaceJoin(fields);
    DfRowOfSplit(Join(fields, ' '), device, fstype, total, used, avail, percent, mountpoint);
  }

  /**
   * The same holds for the column-aligned rows df prints: any non-empty run
   * of whitespace between the fields.
   */
  lemma DfRowOfPaddedFields(device: string, fstype: string, total: nat, used: nat, avail: nat, percent: string, mountpoint: string,
                            seps: seq<string>)
    requires IsField(device) && IsField(fstype) && IsField(percent) && IsField(mountpoint)
    requires fstype !in PseudoFsTypes
    requires |seps| == 6 && forall i :: 0 <= i < |seps| ==> seps[i] != [] && AllIn(seps[i], Whitespace)
    ensures DfRow(Padded([device, fstype, NatToString(total), NatToString(used), NatToString(avail), percent, mountpoint], seps))
            == Keep(LinuxDrive(mountpoint, fstype, avail / GiB, total / GiB))
  {
    RowFields(device, fstype, total, used, avail, percent, mountpoint);
    var fields := [device, fstype, NatToString(total), NatToString(used), NatToString(avail), percent, mountpoint];
    SplitWhitespacePadded(fields, seps);
    DfRowOfSplit(Padded(fields, seps), device, fstype, total, used, avail, percent, mountpoint);
  }

  /** The row of a 100 GiB ext4 root file system with 50 GiB available. */
  lemma DfRowExample()
    ensures DfRow(Join(["/dev/sda1", "ext4", NatToString(107374182400), NatToString(53687091200),
                        NatToString(53687091200), "50%", "/"], ' '))
            == Keep(LinuxDrive("/", "ext4", 50, 100))
  {
    DfRowOfFields("/dev/sda1", "ext4", 107374182400, 53687091200, 53687091200, "50%", "/");
  }
}
