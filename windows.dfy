/**
 * The decoding core of WINDOWS.py: the version table of get_os_version, the
 * logical-drive bitmask loop of get_drives_info, the byte-to-MB arithmetic of
 * get_memory_info and get_performance_info, and the architecture
 * classification of get_processor_info. The native queries are not part of
 * the model: what they return is the input of each operation.
 */
module WindowsInfo {
  import opened Wrappers
  import opened Arith
  import opened PyStr

  // ---------------------------------------------------------------------------
  // get_os_version
  // ---------------------------------------------------------------------------

  /** The two numbers of `sys.getwindowsversion()` the table looks at. */
  datatype WindowsVersion = WindowsVersion(major: nat, minor: nat)

  /** `f"Windows {major}.{minor}"` */
  function GenericName(v: WindowsVersion): string
  {
    "Windows " + NatToString(v.major) + "." + NatToString(v.minor)
  }

  /**
   * What get_os_version returns, as written. The query is None when
   * `sys.getwindowsversion()` raises; the result is None where the function
   * falls off the end of the major-6 branch without a return.
   */
  function OsVersion(query: Option<WindowsVersion>): (r: Option<string>)
    ensures r.None? <==> query.Some? && query.value.major == 6 && query.value.minor > 3
  {
    match query
    case None => Some("Unknown Windows Version")
    case Some(v) =>
      if v.major >= 10 then Some("Windows 10 or Greater")
      else if v.major == 6 then
        if v.minor == 3 then Some("Windows 8.1")
        else if v.minor == 2 then Some("Windows 8")
        else if v.minor == 1 then Some("Windows 7")
        else if v.minor == 0 then Some("Windows Vista")
        else None
      else if v.major == 5 then Some("Windows XP")
      else Some(GenericName(v))
  }

  /** Version 6.4, which the Windows 10 technical previews reported, gets no name. */
  lemma OsVersionSixFourIsNone()
    ensures OsVersion(Some(WindowsVersion(6, 4))) == None
  {
  }

  /** The generic name is written in full: "Windows ", the major, a dot, the minor. */
  lemma GenericNameShape(v: WindowsVersion)
    ensures GenericName(v) == "Windows " + NatToString(v.major) + ['.'] + NatToString(v.minor)
    ensures SplitOnce(GenericName(v)[|"Windows "|..], '.') == Some((NatToString(v.major), NatToString(v.minor)))
  {
    var major, minor := NatToString(v.major), NatToString(v.minor);
    assert GenericName(v)[|"Windows "|..] == major + ['.'] + minor;
    assert '.' !in major by {
      forall i | 0 <= i < |major| ensures major[i] != '.' {
        assert IsDigit(major[i]);
      }
    }
    SplitOnceUnique(major + ['.'] + minor, '.', major, minor);
  }

  /** Different versions never share a generic name. */
  lemma GenericNameInjective(v: WindowsVersion, w: WindowsVersion)
    requires GenericName(v) == GenericName(w)
    ensures v == w
  {
    GenericNameShape(v);
    GenericNameShape(w);
    NatToStringInjective(v.major, w.major);
    NatToStringInjective(v.minor, w.minor);
  }

  /**
   * Majors other than 5, 6 and 10 and above are named generically, so two
   * such versions get the same name only when they are the same version.
   */
  lemma OsVersionGenericInjective(v: WindowsVersion, w: WindowsVersion)
    requires v.major < 10 && v.major != 5 && v.major != 6
    requires w.major < 10 && w.major != 5 && w.major != 6
    requires OsVersion(Some(v)) == OsVersion(Some(w))
    ensures v == w
  {
    GenericNameInjective(v, w);
  }

  /**
   * The version names as the function's callers expect them: the table, and
   * the generic "Windows major.minor" for every version the table does not
   * name, major 6 with a minor above 3 included.
   */
  function OsVersionIntended(query: Option<WindowsVersion>): string
  {
    match query
    case None => "Unknown Windows Version"
    case Some(v) =>
      if v.major >= 10 then "Windows 10 or Greater"
      else if v.major == 6 && v.minor == 3 then "Windows 8.1"
      else if v.major == 6 && v.minor == 2 then "Windows 8"
      else if v.major == 6 && v.minor == 1 then "Windows 7"
      else if v.major == 6 && v.minor == 0 then "Windows Vista"
      else if v.major == 5 then "Windows XP"
      else GenericName(v)
  }

  /**
   * The intended names agree with the function wherever it returns one, and
   * give the generic name where it returns none.
   */
  lemma OsVersionIntendedAgrees(query: Option<WindowsVersion>)
    ensures OsVersion(query).Some? ==> OsVersionIntended(query) == OsVersion(query).value
    ensures OsVersion(query).None? ==> OsVersionIntended(query) == GenericName(query.value)
  {
  }

  /** Under the intended names no version below 10 outside the table shares a name with another. */
  lemma OsVersionIntendedInjective(v: WindowsVersion, w: WindowsVersion)
    requires v.major < 10 && v.major != 5 && !(v.major == 6 && v.minor <= 3)
    requires w.major < 10 && w.major != 5 && !(w.major == 6 && w.minor <= 3)
    requires OsVersionIntended(Some(v)) == OsVersionIntended(Some(w))
    ensures v == w
  {
    GenericNameInjective(v, w);
  }

  // ---------------------------------------------------------------------------
  // get_drives_info: the logical-drive bitmask
  // ---------------------------------------------------------------------------

  /** The letters the loop walks, bit 0 first. */
  const Letters: string := "ABCDEFGHIJKLMNOPQRSTUVWXYZ"

  /** Letter i of Letters is the i-th capital letter. */
  lemma LettersInOrder(i: nat)
    requires i < |Letters|
    ensures Letters[i] as int == 'A' as int + i
  {
  }

  /** `f"{letter}:\\"` for the letter of bit i. */
  function Root(i: nat): string
    requires i < |Letters|
  {
    [Letters[i], ':', '\\']
  }

  /** `mask & (1 << i)` is set, with Python's two's-complement view of negative masks. */
  predicate Bit(mask: int, i: nat)
  {
    mask / Pow2(i) % 2 == 1
  }

  /** The drives the loop has listed after looking at the first k letters. */
  function RootsBelow(mask: int, k: nat): seq<string>
    requires k <= |Letters|
  {
    if k == 0 then []
    else RootsBelow(mask, k - 1) + (if Bit(mask, k - 1) then [Root(k - 1)] else [])
  }

  /** The loop of get_drives_info that turns the bitmask into drive roots. */
  method GetLogicalDriveRoots(mask: int) returns (drives: seq<string>)
    ensures drives == RootsBelow(mask, |Letters|)
  {
    drives := [];
    var bitmask := mask;
    for i := 0 to |Letters|
      invariant bitmask == mask / Pow2(i)
      invariant drives == RootsBelow(mask, i)
    {
      if bitmask % 2 == 1 {
        drives := drives + [Root(i)];
      }
      DivPow2Step(mask, i);
      bitmask := bitmask / 2;
    }
  }

  /** A drive is listed exactly when it is the root of a set bit below k. */
  lemma {:induction false} RootsBelowMembers(mask: int, k: nat)
    requires k <= |Letters|
    ensures forall r :: r in RootsBelow(mask, k) <==> exists i :: 0 <= i < k && Bit(mask, i) && r == Root(i)
  {
    if k > 0 {
      RootsBelowMembers(mask, k - 1);
    }
  }

  /** Different bits give different roots. */
  lemma RootInjective(i: nat, j: nat)
    requires i < |Letters| && j < |Letters| && Root(i) == Root(j)
    ensures i == j
  {
    assert Root(i)[0] == Letters[i] && Root(j)[0] == Letters[j];
    LettersInOrder(i);
    LettersInOrder(j);
  }

  /** Letter i is listed if and only if bit i of the mask is set. */
  lemma RootListedIffBit(mask: int, i: nat)
    requires i < |Letters|
    ensures Root(i) in RootsBelow(mask, |Letters|) <==> Bit(mask, i)
  {
    RootsBelowMembers(mask, |Letters|);
    if Root(i) in RootsBelow(mask, |Letters|) {
      var j :| 0 <= j < |Letters| && Bit(mask, j) && Root(i) == Root(j);
      RootInjective(i, j);
    }
  }

  /** The roots come in strictly ascending letter order, so none is repeated. */
  lemma {:induction false} RootsAscending(mask: int, k: nat)
    requires k <= |Letters|
    ensures forall a :: 0 <= a < |RootsBelow(mask, k)| ==> |RootsBelow(mask, k)[a]| == 3
    ensures forall a, b :: 0 <= a < b < |RootsBelow(mask, k)| ==> RootsBelow(mask, k)[a][0] < RootsBelow(mask, k)[b][0]
    ensures forall a :: 0 <= a < |RootsBelow(mask, k)| ==> RootsBelow(mask, k)[a][0] as int < 'A' as int + k
  {
    if k > 0 {
      RootsAscending(mask, k - 1);
      LettersInOrder(k - 1);
    }
  }

  /** Only the 26 low bits matter: the number of drives is the popcount of `mask & (2**k - 1)`. */
  lemma {:induction false} RootsCount(mask: int, k: nat)
    requires k <= |Letters|
    ensures |RootsBelow(mask, k)| == PopCount(mask % Pow2(k))
  {
    if k > 0 {
      RootsCount(mask, k - 1);
      ModPow2Step(mask, k - 1);
      PopCountTopBit(mask % Pow2(k - 1), mask / Pow2(k - 1) % 2, k - 1);
    }
  }

  /** Letters past the highest set bit of a non-negative mask add nothing. */
  lemma {:induction false} RootsBelowHighBits(mask: int, j: nat, k: nat)
    requires 0 <= mask < Pow2(j) && j <= k <= |Letters|
    ensures RootsBelow(mask, k) == RootsBelow(mask, j)
  {
    if j < k {
      RootsBelowHighBits(mask, j, k - 1);
      PowGrows(j, k - 1);
      DivModUnique(mask, Pow2(k - 1), 0, mask);
    }
  }

  /** A mask of 0b101 lists A and C, in that order. */
  lemma RootsExample()
    ensures RootsBelow(5, |Letters|) == ["A:\\", "C:\\"]
  {
    assert Pow2(0) == 1 && Pow2(1) == 2 && Pow2(2) == 4 && Pow2(3) == 8;
    RootsBelowHighBits(5, 3, |Letters|);
    assert RootsBelow(5, 1) == [Root(0)];
    assert RootsBelow(5, 2) == [Root(0)];
    assert RootsBelow(5, 3) == [Root(0), Root(2)];
  }


  // ---------------------------------------------------------------------------
  // get_memory_info and get_performance_info
  // ---------------------------------------------------------------------------

  /** `1024 * 1024` */
  const MiB: int := 1048576

  /** The fields of MEMORYSTATUSEX the function reads, in bytes and percent. */
  datatype MemoryStatus = MemoryStatus(memoryLoad: nat, totalPhys: nat, availPhys: nat, totalPageFile: nat, availPageFile: nat)

  /** The dict get_memory_info returns, key by key. */
  datatype MemoryFigures = MemoryFigures(
    totalPhysMb: int, availPhysMb: int, usedPhysMb: int, memoryLoad: int,
    availableVirtualMb: int, totalPagefileMb: int, availPagefileMb: int)

  /** What get_memory_info returns; the status is None when GlobalMemoryStatusEx fails. */
  function MemoryInfo(status: Option<MemoryStatus>): (r: Option<MemoryFigures>)
    ensures r.None? <==> status.None?
    ensures r.Some? ==> var m := r.value;
      m.totalPhysMb >= 0 && m.availPhysMb >= 0 && m.availableVirtualMb >= 0 && m.totalPagefileMb >= 0 && m.availPagefileMb >= 0
  {
    match status
    case None => None
    case Some(s) =>
      var totalPhysMb := s.totalPhys / MiB;
      var availPhysMb := s.availPhys / MiB;
      Some(MemoryFigures(totalPhysMb, availPhysMb, totalPhysMb - availPhysMb, s.memoryLoad,
                         (s.totalPhys + s.totalPageFile) / MiB, s.totalPageFile / MiB, s.availPageFile / MiB))
  }

  /**
   * Each MB figure is its byte count rounded down to whole MiB, used memory
   * is the difference of the rounded figures, and the load is passed through;
   * no figures at all when the native call fails.
   */
  lemma MemoryInfoMeaning(status: Option<MemoryStatus>)
    ensures MemoryInfo(status).None? <==> status.None?
    ensures status.Some? ==>
      var s, m := status.value, MemoryInfo(status).value;
      && m.totalPhysMb * MiB <= s.totalPhys < m.totalPhysMb * MiB + MiB
      && m.availPhysMb * MiB <= s.availPhys < m.availPhysMb * MiB + MiB
      && m.totalPagefileMb * MiB <= s.totalPageFile < m.totalPagefileMb * MiB + MiB
      && m.availPagefileMb * MiB <= s.availPageFile < m.availPagefileMb * MiB + MiB
      && m.availableVirtualMb * MiB <= s.totalPhys + s.totalPageFile < m.availableVirtualMb * MiB + MiB
      && m.usedPhysMb == m.totalPhysMb - m.availPhysMb
      && m.memoryLoad == s.memoryLoad
  {
  }

  /** Used memory is never negative while available memory does not exceed the total. */
  lemma UsedPhysNonNegative(s: MemoryStatus)
    requires s.availPhys <= s.totalPhys
    ensures MemoryInfo(Some(s)).value.usedPhysMb >= 0
  {
    DivMonotone(s.availPhys, s.totalPhys, MiB);
  }

  /**
   * The virtual figure divides the sum, so it is at least the sum of the two
   * rounded figures and exceeds it by at most one.
   */
  lemma VirtualWithinOne(s: MemoryStatus)
    ensures var m := MemoryInfo(Some(s)).value;
      m.totalPhysMb + m.totalPagefileMb <= m.availableVirtualMb <= m.totalPhysMb + m.totalPagefileMb + 1
  {
    DivSum(s.totalPhys, s.totalPageFile, MiB);
  }

  /** The fields of PERFORMANCE_INFORMATION the function reads. */
  datatype PerformanceCounters = PerformanceCounters(commitTotal: nat, commitLimit: nat, pageSize: nat)

  /** The dict get_performance_info returns. */
  datatype CommitFigures = CommitFigures(commitTotalMb: int, commitLimitMb: int)

  /** What get_performance_info returns; the counters are None when GetPerformanceInfo fails. */
  function PerformanceInfo(counters: Option<PerformanceCounters>): (r: Option<CommitFigures>)
    ensures r.None? <==> counters.None?
    ensures r.Some? ==> r.value.commitTotalMb >= 0 && r.value.commitLimitMb >= 0
  {
    match counters
    case None => None
    case Some(c) => Some(CommitFigures(c.commitTotal * c.pageSize / MiB, c.commitLimit * c.pageSize / MiB))
  }

  /**
   * The commit figures are the page counts times the page size, rounded down
   * to whole MiB; no figures when the native call fails.
   */
  lemma PerformanceInfoMeaning(counters: Option<PerformanceCounters>)
    ensures PerformanceInfo(counters).None? <==> counters.None?
    ensures counters.Some? ==>
      var c, f := counters.value, PerformanceInfo(counters).value;
      && f.commitTotalMb * MiB <= c.commitTotal * c.pageSize < f.commitTotalMb * MiB + MiB
      && f.commitLimitMb * MiB <= c.commitLimit * c.pageSize < f.commitLimitMb * MiB + MiB
  {
  }

  /** A commit total within the limit is reported within the limit. */
  lemma CommitWithinLimit(c: PerformanceCounters)
    requires c.commitTotal <= c.commitLimit
    ensures PerformanceInfo(Some(c)).value.commitTotalMb <= PerformanceInfo(Some(c)).value.commitLimitMb
  {
    MulMonotone(c.commitTotal, c.commitLimit, c.pageSize);
    DivMonotone(c.commitTotal * c.pageSize, c.commitLimit * c.pageSize, MiB);
  }

  // ---------------------------------------------------------------------------
  // get_processor_info: the architecture
  // ---------------------------------------------------------------------------

  /** `2 ** 32` */
  const TwoTo32: int := 4294967296

  /**
   * The architecture get_processor_info reports. The default follows the
   * word size (`sys.maxsize > 2 ** 32`); the machine string is None when
   * `platform.machine()` raises, which keeps the default.
   */
  function Architecture(maxSize: int, machine: Option<string>): (r: string)
    ensures r in {"x64 (AMD64)", "ARM64", "ARM", "x64", "x86"}
  {
    var default := if maxSize > TwoTo32 then "x64" else "x86";
    match machine
    case None => default
    case Some(m) =>
      if Contains(m, "AMD64") then "x64 (AMD64)"
      else if Contains(m, "ARM64") then "ARM64"
      else if Contains(m, "ARM") then "ARM"
      else default
  }

  /**
   * The classification: AMD64 wins over everything, ARM64 is checked before
   * ARM, and a machine string with none of the three keeps the word-size
   * default.
   */
  lemma ArchitectureClasses(maxSize: int, machine: Option<string>)
    ensures var a := Architecture(maxSize, machine);
      && (a == "x64 (AMD64)" <==> machine.Some? && Contains(machine.value, "AMD64"))
      && (a == "ARM64" <==> machine.Some? && !Contains(machine.value, "AMD64") && Contains(machine.value, "ARM64"))
      && (a == "ARM" <==> machine.Some? && !Contains(machine.value, "AMD64") && !Contains(machine.value, "ARM64")
                                        && Contains(machine.value, "ARM"))
      && (a in {"x64", "x86"} <==> machine.None? || (!Contains(machine.value, "AMD64") && !Contains(machine.value, "ARM")))
      && (a == "x64" <==> a in {"x64", "x86"} && maxSize > TwoTo32)
  {
    if machine.Some? && Contains(machine.value, "ARM64") {
      assert "ARM" + "64" == "ARM64";
      ContainsPrefixOf(machine.value, "ARM", "64");
    }
  }

  /** A machine string naming ARM64, and not AMD64, is never classified as plain ARM. */
  lemma Arm64IsNotArm(maxSize: int, m: string)
    requires Contains(m, "ARM64") && !Contains(m, "AMD64")
    ensures Architecture(maxSize, Some(m)) == "ARM64"
  {
  }
}
