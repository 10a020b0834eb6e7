# py_sip_xnu: a verified model of the SIP decode

`py_sip_xnu` reads the System Integrity Protection (SIP) configuration of a
running macOS (XNU) kernel. The class `sip_xnu` does this in its constructor:

1. It checks that the platform is Darwin.
2. It parses the kernel release string `major.minor.patch`.
3. It gets the raw configuration value. Kernels older than El Capitan
   (major 15) get the sentinel 65535. Newer kernels get the value from
   `csr_get_active_config`, and a nonzero status from that call is an error.
4. It decodes the value into a dictionary of twelve named `CSR_ALLOW_*`
   flags, updating the dictionary in place with a nested loop.
5. It derives three capabilities from the value and the kernel major:
   root editing, NVRAM writing and arbitrary kext loading.
6. It stores everything in a status object, which `get_sip_status()` returns.

The model has two modules:

- `PyStr` (`pystr.dfy`) covers the two Python built-ins the parse calls.
  `Split` is `str.split` with a one-character separator, and `DigitsValue`
  is `int()` on a decimal digit string. `NatToDigits` is not called by the
  parse. It renders a number in decimal, the inverse of `int()`, so that
  the round trips of the parse can be stated.
- `PySipXnu` (`sip_xnu.dfy`) has the rest:
  - the constants and the bitmask table;
  - the pure rules as functions: `ParseVersion`, `StoredVersion`,
    `AcquireValue`, `CanEditRoot`, `CanWriteNvram`,
    `CanLoadArbitraryKexts`, `Breakdown`, and the whole query as `Detect`;
  - the reader as the class `SipXnu`, whose fields are the Python
    attributes;
  - `Init`, which runs the constructor's steps in order;
  - the dictionary decode as the loop methods `UpdateSipDict` and
    `UpdateEntry`, proved against `UpdatedDict`.

`Query` is `sip_xnu().get_sip_status()`. It is proved equal to `Detect`.
The lemmas `DetectFailsEarly`, `DetectBeforeSip` and `DetectFromSip` about
`Detect` state what the module promises. The contracts of the step methods
`IsDarwin`, `DetectSipStatus` and `GetSipStatus` only tie each step to its
function, and carry no promise of their own.

Host inputs are parameters:

- `platform.system()` is `platform`.
- `platform.release()` is `release`.
- The native call is `native`: the status it returns and the value it
  writes. A status of 0 means success.

A Python exception is a `Failure` carrying the error kind:

- `NotDarwin`
- `VersionUnparsable`: the `IndexError` or `ValueError` of the parse.
- `NativeCallFailed(code)`

## Model

| member | source | states |
|---|---|---|
| PyStr.Split | py_sip_xnu.py:182 | `release.split(".")` has one piece more than the release has separators, and no piece contains the separator |
| PyStr.JoinSplit | py_sip_xnu.py:182 | joining the pieces of a split with the separator gives back the original string, so the split loses nothing |
| PyStr.SplitJoin | py_sip_xnu.py:182 | splitting a join of separator-free pieces gives back exactly those pieces |
| PyStr.NatToDigits | py_sip_xnu.py:184-186 | the decimal rendering of a number, the inverse of the `int()` conversions, is a non-empty string of ASCII digits, which `int()` accepts |
| PyStr.DigitsRoundTrip | py_sip_xnu.py:184-186 | `int(str(n)) == n` for every natural number `n` |
| PySipXnu.MasksAreSingleBits | py_sip_xnu.py:55-67 | the table has twelve entries, and entry `i` is the single bit `1 << i` (0x1 through 0x800) |
| PySipXnu.MasksAreLowBits | py_sip_xnu.py:55-67 | every mask lies within the low twelve bits |
| PySipXnu.NamesAreDistinct | py_sip_xnu.py:55-67 | no two table entries share a name |
| PySipXnu.InitialDictHasTableNames | py_sip_xnu.py:91-104 | the initial dictionary has exactly the twelve names of the bitmask table as keys |
| PySipXnu.ParseRendered | py_sip_xnu.py:176-186 | a release rendered from a version, followed by nothing or by further dotted components, parses back to that version |
| PySipXnu.ParseNeedsTwoDots | py_sip_xnu.py:182-186 | a release with fewer than two dots, such as `"15"`, does not parse: indexing piece 1 or 2 raises |
| PySipXnu.ParseNeedsNumbers | py_sip_xnu.py:184-186 | a release whose first three components are not all digit strings does not parse, whatever follows them |
| PySipXnu.ParseExamples | py_sip_xnu.py:181-186 | `"20.6.0"` parses to 20, 6, 0. `"15"` does not parse, but a fresh reader stores major 15 before the parse fails |
| PySipXnu.StoredParsedVersion | py_sip_xnu.py:184-186 | when the release parses, the three assignments store exactly the parsed version |
| PySipXnu.StoredMajorOnly | py_sip_xnu.py:184-185 | a release that is a bare number does not parse, yet its major is stored and the minor and patch keep their previous values |
| PySipXnu.CanEditRoot | py_sip_xnu.py:219-234 | without unrestricted-FS the root is not editable; with it, a kernel before Big Sur can edit root, and Big Sur or later can exactly when unauthenticated-root is also set |
| PySipXnu.EditRootNarrowsAtBigSur | py_sip_xnu.py:227-232 | a value that edits root on Big Sur or later also edits root before Big Sur; the converse holds when unauthenticated-root is set |
| PySipXnu.EditRootExamples | py_sip_xnu.py:219-234 | 0x2 edits root on major 19 but not on major 20, 0x802 edits root on major 20, and 0x0 edits root on no major version |
| PySipXnu.LookupDistinct | py_sip_xnu.py:268-269 | with distinct names, looking a table name up finds exactly its own mask |
| PySipXnu.LookupMaskIsLow | py_sip_xnu.py:268-270 | any mask the lookup finds in a table of low-bit masks is a low-bit mask |
| PySipXnu.BreakdownDecodes | py_sip_xnu.py:262-273 | the decoded dictionary has exactly the twelve flag names as keys, and each entry is true exactly when its bit is set in the value |
| PySipXnu.BreakdownIsLowBits | py_sip_xnu.py:262-273 | two values decode to the same dictionary exactly when they agree on the low twelve bits |
| PySipXnu.SameLowBitsSameBreakdown | py_sip_xnu.py:262-273 | values that agree on the low twelve bits decode to the same dictionary |
| PySipXnu.SameLowBitsSameDict | py_sip_xnu.py:267-273 | for any dictionary and any table of low-bit masks, the update's result depends only on the low twelve bits of the value |
| PySipXnu.SameMaskedBitsSameEntry | py_sip_xnu.py:269-273 | one entry's update depends only on the value's bits under that entry's mask |
| PySipXnu.SameBreakdownSameTests | py_sip_xnu.py:262-273 | equal dictionaries mean the two values agree on every one of the twelve bit tests |
| PySipXnu.LowBitsAgree | py_sip_xnu.py:270 | values that agree on the low twelve bits agree under every mask lying within them |
| PySipXnu.SameTestsSameLowBits | py_sip_xnu.py:56-67 | values that agree on all twelve table bit tests agree on the low twelve bits |
| PySipXnu.SameBitsSameLowBits | py_sip_xnu.py:56-67 | agreement on bits 0x1 through 0x800 is agreement under the mask 0xFFF |
| PySipXnu.CapabilitiesFromBreakdown | py_sip_xnu.py:236-260 | the kext-loading capability is the breakdown's untrusted-kexts entry, and the NVRAM capability is its unrestricted-NVRAM entry |
| PySipXnu.SnapshotConsistent | py_sip_xnu.py:113-119 | every status object has exactly the twelve flag keys, each the bit test of the value, and its three capabilities agree with the breakdown's unrestricted-FS, unauthenticated-root, NVRAM and untrusted-kexts entries |
| PySipXnu.DetectFailsEarly | py_sip_xnu.py:106-107 | a non-Darwin platform fails with `NotDarwin`, and on Darwin an unparsable release fails with `VersionUnparsable`, whatever the native call would report |
| PySipXnu.DetectBeforeSip | py_sip_xnu.py:202-204 | before El Capitan the result does not depend on the native call, and it succeeds with value 65535, every flag true and every capability true |
| PySipXnu.DetectFromSip | py_sip_xnu.py:206-217 | from El Capitan on, a nonzero native status fails with that status, and a zero status gives a consistent object whose value is the native value |
| PySipXnu.DetectExamples | py_sip_xnu.py:208-213 | status 1 on release `"20.6.0"` fails carrying code 1, and release `"15"` fails as unparsable |
| PySipXnu.SipXnu.constructor | py_sip_xnu.py:83-104 | a new reader has version 0.0.0, status 0, the initial all-false dictionary, the bitmask table and no status object |
| PySipXnu.SipXnu.Init | py_sip_xnu.py:106-119 | on the inputs where the query fails, the reader reports that error and holds no status object. Otherwise it stores the parsed version, the value, the decoded dictionary and a status object equal to the query's result, whose breakdown is the stored dictionary |
| PySipXnu.SipXnu.IsDarwin | py_sip_xnu.py:168-174 | the check passes exactly when the platform is `"Darwin"` |
| PySipXnu.SipXnu.DetectXnuVersion | py_sip_xnu.py:176-186 | reports success exactly when the release parses, and then stores the parsed major, minor and patch. On failure the components before the first bad one are stored and the rest keep their values |
| PySipXnu.SipXnu.DetectSipStatus | py_sip_xnu.py:191-217 | the result is the sentinel before El Capitan; otherwise a failure carrying a nonzero native status, or the native value |
| PySipXnu.SipXnu.UpdateSipDict | py_sip_xnu.py:262-273 | after the nested loop, each key holds the bit test of the last table entry with its name, and keys with no table entry keep their value |
| PySipXnu.SipXnu.UpdateEntry | py_sip_xnu.py:268-273 | the inner loop changes only its own key, to the bit test of the last matching table entry |
| PySipXnu.SipXnu.GetSipStatus | py_sip_xnu.py:121-144 | returns the stored status object |
| PySipXnu.Query | py_sip_xnu.py:276-278 | `sip_xnu().get_sip_status()` returns exactly `Detect` of the host inputs, so the lemmas about `Detect` apply to it |

## Left out

- The native library call goes through `ctypes.CDLL` on `/usr/lib/libSystem.dylib` (`LIB_SYSTEM_PATH`). It is foreign code, so the model takes its status and written value as the input `native`. The status is modelled as an unbounded integer rather than a C `int`, and the value as a 32-bit unsigned word.
- `platform.system()` and `platform.release()` query the host, so they are the parameters `platform` and `release`.
- Debug printing, `SIP_XNU_SHOULD_DEBUG` and `__set_debug_mode` are output only. So is the logging in `get_sip_status`, which does not change the result.
- The text of the exception messages built by `__debug_exception` is not modelled. An exception is a `Failure` carrying the error kind and, for the native call, the status code.
- The operating-system version names other than El Capitan (15) and Big Sur (20) are not used by the decode, so they are left out.
- PySipXnu.ParseVersion accepts only non-empty ASCII digit strings as components. Python's `int()` also accepts surrounding whitespace, a sign, underscores between digits and non-ASCII decimal digits. A release such as `"-1.0.0"`, which Python would parse and treat as pre-El Capitan, is unparsable in the model.
- The inner loop walks the bitmask class's `__dict__`, which also holds entries such as `__module__`. None of them equals a flag name, so the model walks only the twelve flag entries, in declaration order.
- The status object's `breakdown` is the same dictionary object as `SIP_DICT`. The model stores a copy. `Init` proves they are equal, and no later code mutates either.
- When an exception is raised part way through the constructor, the fields assigned before it stay assigned. `DetectXnuVersion` states these partial values for the version fields, through `StoredVersion`. `Init`'s contract does not state the fields on failure, because the object is unusable after the exception.
- PySipXnu.InitialDict: the source starts each entry at the integer `0`, and the model starts it at `false`. Every entry is overwritten with a boolean by the decode, so no result shows the difference. The model's map also has no insertion order. Only the left-out logging loop of `get_sip_status` reads that order.
- The constructor is split in two. `SipXnu.constructor` sets the fields of lines 84-104, and `Init` runs the steps of lines 106-119.
- The three capability methods read `self.SIP_STATUS` and `self.XNU_MAJOR`. The model writes them as functions of the value and the major version.
- PySipXnu.SipXnu.UpdateSipDict: the nested loop is written as two methods, with `UpdateEntry` as the inner loop. The outer loop visits the keys in an unspecified order rather than the dictionary's insertion order. Order does not matter, because each key is updated independently.
- `setup.py` and the packaging metadata are not part of this model.
