/**
 System Integrity Protection (SIP) status of a Darwin/XNU kernel.

 The reader checks the platform, parses the kernel release into
 major.minor.patch, obtains the 32-bit CSR configuration (a fixed sentinel
 on kernels older than El Capitan, otherwise the value the native accessor
 `csr_get_active_config` reports) and decodes it into twelve named flags
 and three derived capabilities. The host inputs (platform name, release
 string and the accessor's status/value pair) are parameters.
 */
module PySipXnu {
  import opened PyStr

  datatype Option<T> = None | Some(value: T)

  /** Why a query fails: the host is not Darwin, the release does not parse,
      or the native accessor returned a nonzero status. */
  datatype Error = NotDarwin | VersionUnparsable | NativeCallFailed(code: int)

  datatype Result<T> = Success(value: T) | Failure(error: Error)

  /** Kernel major versions the decode compares against. */
  const OsElCapitan: nat := 15
  const OsBigSur: nat := 20

  /** The value assumed on kernels that predate SIP: unrestricted. */
  const UnrestrictedSentinel: bv32 := 65535

  const CsrAllowUntrustedKexts: bv32 := 0x1
  const CsrAllowUnrestrictedFs: bv32 := 0x2
  const CsrAllowTaskForPid: bv32 := 0x4
  const CsrAllowKernelDebugger: bv32 := 0x8
  const CsrAllowAppleInternal: bv32 := 0x10
  const CsrAllowUnrestrictedDtrace: bv32 := 0x20
  const CsrAllowUnrestrictedNvram: bv32 := 0x40
  const CsrAllowDeviceConfiguration: bv32 := 0x80
  const CsrAllowAnyRecoveryOs: bv32 := 0x100
  const CsrAllowUnapprovedKexts: bv32 := 0x200
  const CsrAllowExecutablePolicyOverride: bv32 := 0x400
  const CsrAllowUnauthenticatedRoot: bv32 := 0x800

  /** One entry of the bitmask table: a flag's name and its mask. */
  datatype Flag = Flag(name: string, mask: bv32)

  /** The bitmask table, in declaration order. */
  const SipBitmask: seq<Flag> := [
    Flag("CSR_ALLOW_UNTRUSTED_KEXTS", CsrAllowUntrustedKexts),
    Flag("CSR_ALLOW_UNRESTRICTED_FS", CsrAllowUnrestrictedFs),
    Flag("CSR_ALLOW_TASK_FOR_PID", CsrAllowTaskForPid),
    Flag("CSR_ALLOW_KERNEL_DEBUGGER", CsrAllowKernelDebugger),
    Flag("CSR_ALLOW_APPLE_INTERNAL", CsrAllowAppleInternal),
    Flag("CSR_ALLOW_UNRESTRICTED_DTRACE", CsrAllowUnrestrictedDtrace),
    Flag("CSR_ALLOW_UNRESTRICTED_NVRAM", CsrAllowUnrestrictedNvram),
    Flag("CSR_ALLOW_DEVICE_CONFIGURATION", CsrAllowDeviceConfiguration),
    Flag("CSR_ALLOW_ANY_RECOVERY_OS", CsrAllowAnyRecoveryOs),
    Flag("CSR_ALLOW_UNAPPROVED_KEXTS", CsrAllowUnapprovedKexts),
    Flag("CSR_ALLOW_EXECUTABLE_POLICY_OVERRIDE", CsrAllowExecutablePolicyOverride),
    Flag("CSR_ALLOW_UNAUTHENTICATED_ROOT", CsrAllowUnauthenticatedRoot)
  ]

  /** The breakdown before any decode: every flag present, none set. */
  function InitialDict(): map<string, bool>
  {
    map[
      "CSR_ALLOW_UNTRUSTED_KEXTS" := false,
      "CSR_ALLOW_UNRESTRICTED_FS" := false,
      "CSR_ALLOW_TASK_FOR_PID" := false,
      "CSR_ALLOW_KERNEL_DEBUGGER" := false,
      "CSR_ALLOW_APPLE_INTERNAL" := false,
      "CSR_ALLOW_UNRESTRICTED_DTRACE" := false,
      "CSR_ALLOW_UNRESTRICTED_NVRAM" := false,
      "CSR_ALLOW_DEVICE_CONFIGURATION" := false,
      "CSR_ALLOW_ANY_RECOVERY_OS" := false,
      "CSR_ALLOW_UNAPPROVED_KEXTS" := false,
      "CSR_ALLOW_EXECUTABLE_POLICY_OVERRIDE" := false,
      "CSR_ALLOW_UNAUTHENTICATED_ROOT" := false
    ]
  }

  function FlagNames(): set<string>
  {
    set i | 0 <= i < |SipBitmask| :: SipBitmask[i].name
  }

  predicate DistinctNames(table: seq<Flag>)
  {
    forall i, j :: 0 <= i < j < |table| ==> table[i].name != table[j].name
  }

  /** `v & mask` is nonzero. */
  predicate Allows(v: bv32, mask: bv32)
  {
    v & mask != 0
  }

  /** The twelve masks are the single bits 0x1 through 0x800, in order. */
  lemma MasksAreSingleBits()
    ensures |SipBitmask| == 12
    ensures forall i :: 0 <= i < |SipBitmask| ==> SipBitmask[i].mask == 1 << i
  {
  }

  /** Every mask lies within the low twelve bits. */
  lemma MasksAreLowBits()
    ensures forall i :: 0 <= i < |SipBitmask| ==> SipBitmask[i].mask & 0xFFF == SipBitmask[i].mask
  {
    forall i | 0 <= i < |SipBitmask| ensures SipBitmask[i].mask & 0xFFF == SipBitmask[i].mask {
      assert i in {0, 1, 2, 3, 4, 5, 6, 7, 8, 9, 10, 11};
    }
  }

  /** No flag name appears twice in the table. */
  lemma NamesAreDistinct()
    ensures DistinctNames(SipBitmask)
  {
  }

  /** The initial breakdown lists exactly the table's names. */
  lemma InitialDictHasTableNames()
    ensures InitialDict().Keys == FlagNames()
  {
    var d := InitialDict();
    forall i | 0 <= i < |SipBitmask| ensures SipBitmask[i].name in d {
      assert i in {0, 1, 2, 3, 4, 5, 6, 7, 8, 9, 10, 11};
    }
    assert SipBitmask[0].name in FlagNames();
    assert SipBitmask[1].name in FlagNames();
    assert SipBitmask[2].name in FlagNames();
    assert SipBitmask[3].name in FlagNames();
    assert SipBitmask[4].name in FlagNames();
    assert SipBitmask[5].name in FlagNames();
    assert SipBitmask[6].name in FlagNames();
    assert SipBitmask[7].name in FlagNames();
    assert SipBitmask[8].name in FlagNames();
    assert SipBitmask[9].name in FlagNames();
    assert SipBitmask[10].name in FlagNames();
    assert SipBitmask[11].name in FlagNames();
  }

  // ---------------------------------------------------------------------
  // Kernel version

  datatype KernelVersion = KernelVersion(major: nat, minor: nat, patch: nat)

  /** `release.split(".")` followed by `int()` of the first three pieces;
      `None` when there are fewer than three pieces or one of them is not a
      digit string. Pieces after the third are ignored. */
  function ParseVersion(release: string): Option<KernelVersion>
  {
    var parts := Split(release, '.');
    if |parts| < 3 || !IsDigits(parts[0]) || !IsDigits(parts[1]) || !IsDigits(parts[2]) then None
    else Some(KernelVersion(DigitsValue(parts[0]), DigitsValue(parts[1]), DigitsValue(parts[2])))
  }

  /** The three version fields after the parse's assignments, which run in
      order and stop at the first component that is missing or not a digit
      string: the components before it are stored, the others keep `prev`. */
  function StoredVersion(release: string, prev: KernelVersion): KernelVersion
  {
    var parts := Split(release, '.');
    if !IsDigits(parts[0]) then prev
    else if |parts| < 2 || !IsDigits(parts[1]) then prev.(major := DigitsValue(parts[0]))
    else if |parts| < 3 || !IsDigits(parts[2]) then
      prev.(major := DigitsValue(parts[0]), minor := DigitsValue(parts[1]))
    else KernelVersion(DigitsValue(parts[0]), DigitsValue(parts[1]), DigitsValue(parts[2]))
  }

  /** A release that parses stores exactly its parsed version. */
  lemma StoredParsedVersion(release: string, prev: KernelVersion)
    requires ParseVersion(release).Some?
    ensures StoredVersion(release, prev) == ParseVersion(release).value
  {
  }

  /** A release that is a bare major number stores the major, then fails on
      the missing minor and leaves minor and patch as they were. */
  lemma StoredMajorOnly(a: string, prev: KernelVersion)
    requires IsDigits(a) && '.' !in a
    ensures ParseVersion(a) == None
    ensures StoredVersion(a, prev) == prev.(major := DigitsValue(a))
  {
    SplitWithoutSeparator(a, '.');
  }

  /** The release string a kernel reports for a version. */
  function Render(v: KernelVersion): string
  {
    NatToDigits(v.major) + "." + NatToDigits(v.minor) + "." + NatToDigits(v.patch)
  }

  /** A rendered version parses back to itself, whatever further dotted
      components follow it. */
  lemma ParseRendered(v: KernelVersion, suffix: string)
    requires suffix == "" || suffix[0] == '.'
    ensures ParseVersion(Render(v) + suffix) == Some(v)
  {
    var a, b, c := NatToDigits(v.major), NatToDigits(v.minor), NatToDigits(v.patch);
    DigitsHaveNoDot(a);
    DigitsHaveNoDot(b);
    DigitsHaveNoDot(c);
    RenderedPieces(a, b, c, suffix);
    DigitsRoundTrip(v.major);
    DigitsRoundTrip(v.minor);
    DigitsRoundTrip(v.patch);
  }

  /** The first three pieces of `a.b.c` followed by a dotted suffix. */
  lemma RenderedPieces(a: string, b: string, c: string, suffix: string)
    requires '.' !in a && '.' !in b && '.' !in c
    requires suffix == "" || suffix[0] == '.'
    ensures |Split(a + "." + b + "." + c + suffix, '.')| >= 3
    ensures Split(a + "." + b + "." + c + suffix, '.')[..3] == [a, b, c]
  {
    assert a + "." + b + "." + c + suffix == a + "." + (b + "." + (c + suffix));
    SplitAfterPiece(a, '.', b + "." + (c + suffix));
    SplitAfterPiece(b, '.', c + suffix);
    FirstPiece(c, suffix);
  }

  lemma FirstPiece(c: string, suffix: string)
    requires '.' !in c
    requires suffix == "" || suffix[0] == '.'
    ensures Split(c + suffix, '.')[0] == c
  {
    if suffix == "" {
      assert c + suffix == c;
      SplitWithoutSeparator(c, '.');
    } else {
      assert c + suffix == c + "." + suffix[1..];
      SplitAfterPiece(c, '.', suffix[1..]);
    }
  }

  lemma DigitsHaveNoDot(s: string)
    requires IsDigits(s)
    ensures '.' !in s
  {
  }

  /** A release that parses has at least two dots; in particular a release
      with a single component, such as "15", never parses. */
  lemma ParseNeedsTwoDots(release: string)
    ensures Count(release, '.') < 2 ==> ParseVersion(release) == None
  {
  }

  /** A release whose first three components are not all digit strings
      does not parse, whatever follows them. */
  lemma ParseNeedsNumbers(a: string, b: string, c: string, suffix: string)
    requires '.' !in a && '.' !in b && '.' !in c
    requires suffix == "" || suffix[0] == '.'
    requires !IsDigits(a) || !IsDigits(b) || !IsDigits(c)
    ensures ParseVersion(a + "." + b + "." + c + suffix) == None
  {
    RenderedPieces(a, b, c, suffix);
    var parts := Split(a + "." + b + "." + c + suffix, '.');
    assert parts[0] == a && parts[1] == b && parts[2] == c by {
      assert parts[..3][0] == parts[0] && parts[..3][1] == parts[1] && parts[..3][2] == parts[2];
    }
  }

  /** Two releases reported by kernels, and one that is only a major number. */
  lemma ParseExamples()
    ensures ParseVersion("20.6.0") == Some(KernelVersion(20, 6, 0))
    ensures ParseVersion("15") == None
    ensures StoredVersion("15", KernelVersion(0, 0, 0)) == KernelVersion(15, 0, 0)
  {
    StoredMajorOnly("15", KernelVersion(0, 0, 0));
    assert DigitsValue("15") == 15 by {
      assert "15"[..1] == "1";
    }
    ParseRendered(KernelVersion(20, 6, 0), "");
    assert NatToDigits(20) == "20" by {
      assert NatToDigits(2) == "2";
    }
    assert Render(KernelVersion(20, 6, 0)) + "" == "20.6.0";
    ParseNeedsTwoDots("15");
  }

  // ---------------------------------------------------------------------
  // Configuration value

  /** What the native accessor reports: its status code and the value it
      wrote through its out-parameter. */
  datatype NativeResult = NativeResult(status: int, value: bv32)

  /** The raw configuration value for a kernel major version. */
  function AcquireValue(major: nat, native: NativeResult): Result<bv32>
  {
    if major < OsElCapitan then Success(UnrestrictedSentinel)
    else if native.status != 0 then Failure(NativeCallFailed(native.status))
    else Success(native.value)
  }

  // ---------------------------------------------------------------------
  // Derived capabilities

  function CanLoadArbitraryKexts(v: bv32): bool
  {
    Allows(v, CsrAllowUntrustedKexts)
  }

  function CanWriteNvram(v: bv32): bool
  {
    Allows(v, CsrAllowUnrestrictedNvram)
  }

  /** Unrestricted filesystem access edits root; from Big Sur on, the
      sealed system volume also requires unauthenticated root. */
  function CanEditRoot(v: bv32, major: nat): (r: bool)
    ensures !Allows(v, CsrAllowUnrestrictedFs) ==> !r
    ensures Allows(v, CsrAllowUnrestrictedFs) && major < OsBigSur ==> r
    ensures Allows(v, CsrAllowUnrestrictedFs) && major >= OsBigSur ==> (r <==> Allows(v, CsrAllowUnauthenticatedRoot))
  {
    if Allows(v, CsrAllowUnrestrictedFs) then
      if major < OsBigSur then true
      else if Allows(v, CsrAllowUnauthenticatedRoot) then true
      else false
    else false
  }

  /** From Big Sur on root is editable only on values that also allowed it
      before Big Sur. */
  lemma EditRootNarrowsAtBigSur(v: bv32, newer: nat, older: nat)
    requires older < OsBigSur <= newer
    ensures CanEditRoot(v, newer) ==> CanEditRoot(v, older)
    ensures CanEditRoot(v, older) && Allows(v, CsrAllowUnauthenticatedRoot) ==> CanEditRoot(v, newer)
  {
  }

  /** The four cases of the root-editing rule. */
  lemma EditRootExamples()
    ensures CanEditRoot(0x2, 19)
    ensures !CanEditRoot(0x2, 20)
    ensures CanEditRoot(0x802, 20)
    ensures !CanEditRoot(0x0, 19)
    ensures forall m: nat :: !CanEditRoot(0x0, m)
  {
  }

  // ---------------------------------------------------------------------
  // Breakdown

  /** The mask of the last of the first `n` table entries named `name`:
      walking the table, each entry of that name overwrites the previous one. */
  function LookupMask(table: seq<Flag>, n: nat, name: string): Option<bv32>
    requires n <= |table|
  {
    if n == 0 then None
    else if table[n - 1].name == name then Some(table[n - 1].mask)
    else LookupMask(table, n - 1, name)
  }

  /** In a table with distinct names, each name finds its own mask. */
  lemma {:induction false} LookupDistinct(table: seq<Flag>, n: nat, i: nat)
    requires DistinctNames(table)
    requires i < n <= |table|
    ensures LookupMask(table, n, table[i].name) == Some(table[i].mask)
  {
    if i < n - 1 {
      LookupDistinct(table, n - 1, i);
    }
  }

  /** A breakdown entry after the decode: the bit test when the table has
      the name, the previous value otherwise. */
  function UpdatedEntry(previous: bool, mask: Option<bv32>, v: bv32): bool
  {
    match mask
    case Some(m) => Allows(v, m)
    case None => previous
  }

  /** The breakdown `d` after decoding `v` into it along `table`. */
  function UpdatedDict(d: map<string, bool>, table: seq<Flag>, v: bv32): map<string, bool>
  {
    map k | k in d :: UpdatedEntry(d[k], LookupMask(table, |table|, k), v)
  }

  /** The decoded breakdown of a fresh reader. */
  function Breakdown(v: bv32): map<string, bool>
  {
    UpdatedDict(InitialDict(), SipBitmask, v)
  }

  /** The decode keeps exactly the twelve flag names and maps each to its
      bit test. */
  lemma BreakdownDecodes(v: bv32)
    ensures Breakdown(v).Keys == FlagNames()
    ensures forall i :: 0 <= i < |SipBitmask| ==>
              Breakdown(v)[SipBitmask[i].name] == Allows(v, SipBitmask[i].mask)
  {
    NamesAreDistinct();
    InitialDictHasTableNames();
    forall i | 0 <= i < |SipBitmask|
      ensures Breakdown(v)[SipBitmask[i].name] == Allows(v, SipBitmask[i].mask)
    {
      LookupDistinct(SipBitmask, |SipBitmask|, i);
    }
  }

  /** The breakdown records exactly the low twelve bits: two values have
      the same breakdown iff they agree on bits 0x1 through 0x800. */
  lemma BreakdownIsLowBits(v: bv32, w: bv32)
    ensures Breakdown(v) == Breakdown(w) <==> v & 0xFFF == w & 0xFFF
  {
    if v & 0xFFF == w & 0xFFF {
      SameLowBitsSameBreakdown(v, w);
    }
    if Breakdown(v) == Breakdown(w) {
      SameBreakdownSameTests(v, w);
      SameTestsSameLowBits(v, w);
    }
  }

  lemma SameLowBitsSameBreakdown(v: bv32, w: bv32)
    requires v & 0xFFF == w & 0xFFF
    ensures Breakdown(v) == Breakdown(w)
  {
    MasksAreLowBits();
    SameLowBitsSameDict(InitialDict(), SipBitmask, v, w);
  }

  /** Along a table of low-bit masks, values that agree on the low twelve
      bits decode alike. */
  lemma SameLowBitsSameDict(d: map<string, bool>, table: seq<Flag>, v: bv32, w: bv32)
    requires forall i :: 0 <= i < |table| ==> table[i].mask & 0xFFF == table[i].mask
    requires v & 0xFFF == w & 0xFFF
    ensures UpdatedDict(d, table, v) == UpdatedDict(d, table, w)
  {
    forall k | k in d ensures UpdatedDict(d, table, v)[k] == UpdatedDict(d, table, w)[k] {
      var mask := LookupMask(table, |table|, k);
      LookupMaskIsLow(table, |table|, k);
      if mask.Some? {
        LowBitsAgree(v, w, mask.value);
      }
      SameMaskedBitsSameEntry(d[k], mask, v, w);
    }
  }

  lemma SameMaskedBitsSameEntry(previous: bool, mask: Option<bv32>, v: bv32, w: bv32)
    requires mask.Some? ==> v & mask.value == w & mask.value
    ensures UpdatedEntry(previous, mask, v) == UpdatedEntry(previous, mask, w)
  {
  }

  /** A mask found in a table of low-bit masks is a low-bit mask. */
  lemma {:induction false} LookupMaskIsLow(table: seq<Flag>, n: nat, name: string)
    requires n <= |table|
    requires forall i :: 0 <= i < |table| ==> table[i].mask & 0xFFF == table[i].mask
    ensures LookupMask(table, n, name).Some? ==>
              LookupMask(table, n, name).value & 0xFFF == LookupMask(table, n, name).value
  {
    if n > 0 && table[n - 1].name != name {
      LookupMaskIsLow(table, n - 1, name);
    }
  }

  lemma SameBreakdownSameTests(v: bv32, w: bv32)
    requires Breakdown(v) == Breakdown(w)
    ensures forall i :: 0 <= i < |SipBitmask| ==>
              Allows(v, SipBitmask[i].mask) == Allows(w, SipBitmask[i].mask)
  {
    BreakdownDecodes(v);
    BreakdownDecodes(w);
  }

  lemma LowBitsAgree(v: bv32, w: bv32, m: bv32)
    requires v & 0xFFF == w & 0xFFF
    requires m & 0xFFF == m
    ensures v & m == w & m
  {
  }

  lemma SameTestsSameLowBits(v: bv32, w: bv32)
    requires forall i :: 0 <= i < |SipBitmask| ==>
               Allows(v, SipBitmask[i].mask) == Allows(w, SipBitmask[i].mask)
    ensures v & 0xFFF == w & 0xFFF
  {
    assert SipBitmask[0].mask == CsrAllowUntrustedKexts;
    assert SipBitmask[1].mask == CsrAllowUnrestrictedFs;
    assert SipBitmask[2].mask == CsrAllowTaskForPid;
    assert SipBitmask[3].mask == CsrAllowKernelDebugger;
    assert SipBitmask[4].mask == CsrAllowAppleInternal;
    assert SipBitmask[5].mask == CsrAllowUnrestrictedDtrace;
    assert SipBitmask[6].mask == CsrAllowUnrestrictedNvram;
    assert SipBitmask[7].mask == CsrAllowDeviceConfiguration;
    assert SipBitmask[8].mask == CsrAllowAnyRecoveryOs;
    assert SipBitmask[9].mask == CsrAllowUnapprovedKexts;
    assert SipBitmask[10].mask == CsrAllowExecutablePolicyOverride;
    assert SipBitmask[11].mask == CsrAllowUnauthenticatedRoot;
    SameBitsSameLowBits(v, w);
  }

  lemma SameBitsSameLowBits(v: bv32, w: bv32)
    requires Allows(v, CsrAllowUntrustedKexts) == Allows(w, CsrAllowUntrustedKexts)
    requires Allows(v, CsrAllowUnrestrictedFs) == Allows(w, CsrAllowUnrestrictedFs)
    requires Allows(v, CsrAllowTaskForPid) == Allows(w, CsrAllowTaskForPid)
    requires Allows(v, CsrAllowKernelDebugger) == Allows(w, CsrAllowKernelDebugger)
    requires Allows(v, CsrAllowAppleInternal) == Allows(w, CsrAllowAppleInternal)
    requires Allows(v, CsrAllowUnrestrictedDtrace) == Allows(w, CsrAllowUnrestrictedDtrace)
    requires Allows(v, CsrAllowUnrestrictedNvram) == Allows(w, CsrAllowUnrestrictedNvram)
    requires Allows(v, CsrAllowDeviceConfiguration) == Allows(w, CsrAllowDeviceConfiguration)
    requires Allows(v, CsrAllowAnyRecoveryOs) == Allows(w, CsrAllowAnyRecoveryOs)
    requires Allows(v, CsrAllowUnapprovedKexts) == Allows(w, CsrAllowUnapprovedKexts)
    requires Allows(v, CsrAllowExecutablePolicyOverride) == Allows(w, CsrAllowExecutablePolicyOverride)
    requires Allows(v, CsrAllowUnauthenticatedRoot) == Allows(w, CsrAllowUnauthenticatedRoot)
    ensures v & 0xFFF == w & 0xFFF
  {
  }

  // ---------------------------------------------------------------------
  // The status snapshot

  /** The immutable result of a query. */
  datatype SipStatus = SipStatus(
    value: bv32,
    breakdown: map<string, bool>,
    canEditRoot: bool,
    canWriteNvram: bool,
    canLoadArbitraryKexts: bool)

  function Snapshot(v: bv32, major: nat): SipStatus
  {
    SipStatus(v, Breakdown(v), CanEditRoot(v, major), CanWriteNvram(v), CanLoadArbitraryKexts(v))
  }

  /** The whole query as a function of the host inputs. */
  function Detect(platform: string, release: string, native: NativeResult): Result<SipStatus>
  {
    if platform != "Darwin" then Failure(NotDarwin)
    else match ParseVersion(release)
      case None => Failure(VersionUnparsable)
      case Some(version) =>
        match AcquireValue(version.major, native)
        case Failure(e) => Failure(e)
        case Success(v) => Success(Snapshot(v, version.major))
  }

  /** What a snapshot promises: the breakdown holds exactly the twelve flags,
      each its bit test, and the capabilities agree with the breakdown. */
  predicate Consistent(s: SipStatus, major: nat)
  {
    && s.breakdown.Keys == FlagNames()
    && (forall i :: 0 <= i < |SipBitmask| ==>
          s.breakdown[SipBitmask[i].name] == Allows(s.value, SipBitmask[i].mask))
    && "CSR_ALLOW_UNTRUSTED_KEXTS" in s.breakdown
    && "CSR_ALLOW_UNRESTRICTED_FS" in s.breakdown
    && "CSR_ALLOW_UNRESTRICTED_NVRAM" in s.breakdown
    && "CSR_ALLOW_UNAUTHENTICATED_ROOT" in s.breakdown
    && s.canLoadArbitraryKexts == s.breakdown["CSR_ALLOW_UNTRUSTED_KEXTS"]
    && s.canWriteNvram == s.breakdown["CSR_ALLOW_UNRESTRICTED_NVRAM"]
    && s.canEditRoot == (s.breakdown["CSR_ALLOW_UNRESTRICTED_FS"] &&
                         (major < OsBigSur || s.breakdown["CSR_ALLOW_UNAUTHENTICATED_ROOT"]))
  }

  /** The kext and NVRAM capabilities are the breakdown's untrusted-kexts
      and unrestricted-NVRAM entries. */
  lemma CapabilitiesFromBreakdown(v: bv32)
    ensures "CSR_ALLOW_UNTRUSTED_KEXTS" in Breakdown(v)
    ensures "CSR_ALLOW_UNRESTRICTED_NVRAM" in Breakdown(v)
    ensures CanLoadArbitraryKexts(v) == Breakdown(v)["CSR_ALLOW_UNTRUSTED_KEXTS"]
    ensures CanWriteNvram(v) == Breakdown(v)["CSR_ALLOW_UNRESTRICTED_NVRAM"]
  {
    BreakdownDecodes(v);
    assert SipBitmask[0].name == "CSR_ALLOW_UNTRUSTED_KEXTS";
    assert SipBitmask[6].name == "CSR_ALLOW_UNRESTRICTED_NVRAM";
  }

  /** Every snapshot a query produces is consistent. */
  lemma SnapshotConsistent(v: bv32, major: nat)
    ensures Consistent(Snapshot(v, major), major)
  {
    BreakdownDecodes(v);
    CapabilitiesFromBreakdown(v);
    assert SipBitmask[1].name == "CSR_ALLOW_UNRESTRICTED_FS";
    assert SipBitmask[11].name == "CSR_ALLOW_UNAUTHENTICATED_ROOT";
  }

  /** The platform is checked first, then the release, and only then is the
      native accessor consulted: the first two failures do not depend on it. */
  lemma DetectFailsEarly(platform: string, release: string, native: NativeResult)
    ensures platform != "Darwin" ==> Detect(platform, release, native) == Failure(NotDarwin)
    ensures platform == "Darwin" && ParseVersion(release) == None ==>
              Detect(platform, release, native) == Failure(VersionUnparsable)
  {
  }

  /** Before El Capitan the value is the sentinel whatever the accessor
      would report, and every flag and capability is allowed. */
  lemma DetectBeforeSip(release: string, native: NativeResult, other: NativeResult)
    requires ParseVersion(release).Some? && ParseVersion(release).value.major < OsElCapitan
    ensures Detect("Darwin", release, native) == Detect("Darwin", release, other)
    ensures Detect("Darwin", release, native).Success?
    ensures var s := Detect("Darwin", release, native).value;
            && s.value == UnrestrictedSentinel
            && (forall k :: k in s.breakdown.Keys ==> s.breakdown[k])
            && s.canEditRoot && s.canWriteNvram && s.canLoadArbitraryKexts
  {
    var s := Detect("Darwin", release, native).value;
    BreakdownDecodes(UnrestrictedSentinel);
    MasksAreSingleBits();
    forall k | k in s.breakdown.Keys ensures s.breakdown[k] {
      var i :| 0 <= i < |SipBitmask| && SipBitmask[i].name == k;
      assert Allows(UnrestrictedSentinel, SipBitmask[i].mask);
    }
  }

  /** From El Capitan on a nonzero status is a failure carrying it, and a
      zero status yields a consistent snapshot of the accessor's value. */
  lemma DetectFromSip(release: string, native: NativeResult)
    requires ParseVersion(release).Some? && ParseVersion(release).value.major >= OsElCapitan
    ensures native.status != 0 ==> Detect("Darwin", release, native) == Failure(NativeCallFailed(native.status))
    ensures native.status == 0 ==>
              && Detect("Darwin", release, native).Success?
              && Detect("Darwin", release, native).value.value == native.value
              && Consistent(Detect("Darwin", release, native).value, ParseVersion(release).value.major)
  {
    SnapshotConsistent(native.value, ParseVersion(release).value.major);
  }

  /** A native status of 1 on a SIP kernel fails the query with that code,
      and a release with one component fails before the accessor matters. */
  lemma DetectExamples(native: NativeResult)
    ensures Detect("Darwin", "20.6.0", NativeResult(1, native.value)) == Failure(NativeCallFailed(1))
    ensures Detect("Darwin", "15", native) == Failure(VersionUnparsable)
  {
    ParseExamples();
  }

  // ---------------------------------------------------------------------
  // The reader object

  /** The reader: its fields are filled in step by step by `Init`. */
  class SipXnu {
    /** The bitmask table the decode walks. */
    const sipBitmask: seq<Flag>
    var xnuMajor: nat
    var xnuMinor: nat
    var xnuPatch: nat
    var sipStatus: bv32
    var sipDict: map<string, bool>
    var sipObject: Option<SipStatus>

    /** The state before any step has run. */
    predicate Pristine()
      reads this
    {
      sipBitmask == SipBitmask &&
      xnuMajor == 0 && xnuMinor == 0 && xnuPatch == 0 && sipStatus == 0 &&
      sipDict == InitialDict() && sipObject == None
    }

    constructor ()
      ensures Pristine()
    {
      sipBitmask := SipBitmask;
      xnuMajor, xnuMinor, xnuPatch := 0, 0, 0;
      sipStatus := 0;
      sipDict := InitialDict();
      sipObject := None;
    }

    /** Runs the platform check, version parse, value acquisition, decode and
        snapshot; on failure reports the error instead of a snapshot. */
    method Init(platform: string, release: string, native: NativeResult) returns (err: Option<Error>)
      requires Pristine()
      modifies this
      ensures Detect(platform, release, native).Failure? ==>
                err == Some(Detect(platform, release, native).error) && sipObject == None
      ensures Detect(platform, release, native).Success? ==>
                && err == None
                && sipObject == Some(Detect(platform, release, native).value)
                && Some(KernelVersion(xnuMajor, xnuMinor, xnuPatch)) == ParseVersion(release)
                && sipStatus == sipObject.value.value
                && sipDict == sipObject.value.breakdown
    {
      var darwin := IsDarwin(platform);
      if !darwin {
        return Some(NotDarwin);
      }
      var parsed := DetectXnuVersion(release);
      if !parsed {
        return Some(VersionUnparsable);
      }
      var acquired := DetectSipStatus(native);
      if acquired.Failure? {
        return Some(acquired.error);
      }
      sipStatus := acquired.value;
      UpdateSipDict();
      sipObject := Some(SipStatus(sipStatus, sipDict, CanEditRoot(sipStatus, xnuMajor),
                                  CanWriteNvram(sipStatus), CanLoadArbitraryKexts(sipStatus)));
      return None;
    }

    method IsDarwin(platform: string) returns (ok: bool)
      ensures ok <==> platform == "Darwin"
    {
      ok := platform == "Darwin";
    }

    /** Stores the parsed version; reports whether the release parsed. */
    method DetectXnuVersion(release: string) returns (ok: bool)
      modifies this`xnuMajor, this`xnuMinor, this`xnuPatch
      ensures ok <==> ParseVersion(release).Some?
      ensures ok ==> Some(KernelVersion(xnuMajor, xnuMinor, xnuPatch)) == ParseVersion(release)
      ensures KernelVersion(xnuMajor, xnuMinor, xnuPatch) ==
                StoredVersion(release, KernelVersion(old(xnuMajor), old(xnuMinor), old(xnuPatch)))
    {
      var parts := Split(release, '.');
      if !IsDigits(parts[0]) {
        return false;
      }
      xnuMajor := DigitsValue(parts[0]);
      if |parts| < 2 || !IsDigits(parts[1]) {
        return false;
      }
      xnuMinor := DigitsValue(parts[1]);
      if |parts| < 3 || !IsDigits(parts[2]) {
        return false;
      }
      xnuPatch := DigitsValue(parts[2]);
      return true;
    }

    /** The raw value for the stored kernel version. */
    method DetectSipStatus(native: NativeResult) returns (r: Result<bv32>)
      ensures r == AcquireValue(xnuMajor, native)
    {
      if xnuMajor < OsElCapitan {
        return Success(UnrestrictedSentinel);
      }
      if native.status != 0 {
        return Failure(NativeCallFailed(native.status));
      }
      return Success(native.value);
    }

    /** Decodes `sipStatus` into `sipDict` in place: the outer loop visits
        every key of the breakdown; `UpdateEntry` is its inner loop. */
    method UpdateSipDict()
      modifies this`sipDict
      ensures sipDict == UpdatedDict(old(sipDict), sipBitmask, sipStatus)
    {
      ghost var before := sipDict;
      var pending := sipDict.Keys;
      while pending != {}
        invariant pending <= before.Keys
        invariant sipDict.Keys == before.Keys
        invariant forall k :: k in pending ==> sipDict[k] == before[k]
        invariant forall k :: k in before && k !in pending ==>
                    sipDict[k] == UpdatedEntry(before[k], LookupMask(sipBitmask, |sipBitmask|, k), sipStatus)
        decreases pending
      {
        var key :| key in pending;
        UpdateEntry(key);
        pending := pending - {key};
      }
    }

    /** Walks the bitmask table for one key: every entry of that name sets
        the key to the entry's bit test. */
    method UpdateEntry(key: string)
      requires key in sipDict
      modifies this`sipDict
      ensures sipDict == old(sipDict)[key := UpdatedEntry(old(sipDict)[key], LookupMask(sipBitmask, |sipBitmask|, key), sipStatus)]
    {
      ghost var start := sipDict;
      ghost var previous := sipDict[key];
      var v := sipStatus;
      var j := 0;
      while j < |sipBitmask|
        invariant 0 <= j <= |sipBitmask|
        invariant sipDict == start[key := UpdatedEntry(previous, LookupMask(sipBitmask, j, key), v)]
      {
        var flag := sipBitmask[j];
        if flag.name == key {
          if Allows(v, flag.mask) {
            sipDict := sipDict[key := true];
          } else {
            sipDict := sipDict[key := false];
          }
        }
        j := j + 1;
      }
    }

    method GetSipStatus() returns (s: SipStatus)
      requires sipObject.Some?
      ensures s == sipObject.value
    {
      s := sipObject.value;
    }
  }

  /** `sip_xnu().get_sip_status()`: a fresh reader, initialised from the
      host inputs, and its snapshot. */
  method Query(platform: string, release: string, native: NativeResult) returns (r: Result<SipStatus>)
    ensures r == Detect(platform, release, native)
  {
    var reader := new SipXnu();
    var err := reader.Init(platform, release, native);
    if err.Some? {
      return Failure(err.value);
    }
    var s := reader.GetSipStatus();
    return Success(s);
  }
}
