# faulthandler in Dafny

A model of the two cores of `faulthandler`, the CPython extension that dumps
Python stacks from inside signal handlers:

- **The signal-safe renderer.** The integer encoders `reverse_string`,
  `dump_decimal` and `dump_hexadecimal`, the escaping writer `dump_ascii`,
  `dump_frame`, the single-thread dump (at most 100 frames), `write_thread_id`
  and the all-threads dump (at most 100 threads), with the errors they
  surface to Python. The three revisions in the repository differ in small
  ways. They differ in the truncation limit (none, 100 or 500 code units),
  in which characters pass through unescaped, in the header text, in
  whether an empty stack still gets its header, and in whether a missing
  interpreter is reported. One `Render` module takes a `Flavor` holding
  these choices. `FaulthandlerC`, `TracebackC` and `BacktraceC` instantiate
  it for faulthandler.c, traceback.c and faulthandler/backtrace.c.
- **The handler tables.** These are the fatal-signal table
  (`enable`/`disable`/`is_enabled` and the fatal handler), the SIGALRM
  "dump later" timer (arm, fire, cancel) and the user-signal registry
  (`register`, `unregister`, unload, and the user handler). Each is an
  immutable state record with transition functions. They act on `Env`,
  which stands for the process: the kernel's signal-disposition table, the
  pending `alarm()` delay, and the log of file references given up.
  `EarlyHandler` is the earliest fatal handler (faulthandler/handler.c),
  which writes to descriptor 2.

The model leaves three things outside the code as parameters:

- what `file.fileno()` returns (`FilenoCall`);
- which `sigaction`/`signal` calls fail (`fails`, `installFails`);
- the thread state found in thread-local storage (`tls`).

Frames and threads are given sequences. A frame link that fails
`PyFrame_Check` is `NotAFrame`. A text is a sequence of `Py_UNICODE` code
units.

The integer encoders are methods with the C loops: a do-while that writes
digits least significant first into a buffer, then an in-place array
reversal. They are proved equal to reference definitions that write the
most significant digit first, and those come with parsers and round-trip
lemmas.

## Model

| member | source | states |
|---|---|---|
| Numerals.ReverseString | traceback.c:19-31 | the first `len` characters come back in reverse order and the rest of the buffer is unchanged; a zero length changes nothing |
| Numerals.ReverseIndex | traceback.c:19-31 | element `i` of the reversal is element `len - 1 - i` of the original, the pairing the swap loop performs |
| Numerals.DumpDecimal | traceback.c:38-53 | for 0 <= value <= 999999 the output is the reference decimal text (no leading zero, "0" for zero) and fits the 7-byte buffer; any other value writes nothing |
| Numerals.DecimalDigitsReversed | traceback.c:42-50 | the do-while loop writes at least one digit, and its buffer read backwards is the decimal text of the value |
| Numerals.DecimalRoundTrip | traceback.c:38-53 | parsing the decimal text gives the value back |
| Numerals.DecimalTextCanonical | traceback.c:38-53 | the decimal text is all digits with no leading zero, and starts with '0' exactly for zero |
| Numerals.DecimalParseRoundTrip | traceback.c:38-53 | every canonical numeral is the decimal text of its own value, so the encoder's image is exactly the canonical numerals |
| Numerals.DumpHexadecimal | traceback.c:60-74 | the output is the value's lowercase hex digits left-padded with zeros to `width`, has max(width, digit count) characters, fits the 17-byte buffer, and parses back to the value |
| Numerals.HexDigitsReversed | traceback.c:64-71 | the loop runs while fewer than `width` digits are written or value bits remain, and its buffer read backwards is the padded field |
| Numerals.HexRoundTrip | traceback.c:60-74 | parsing the zero-padded field gives the value back, whatever the width |
| Numerals.HexTextMinimal | traceback.c:60-74 | the unpadded hex text has a leading '0' exactly for zero |
| Numerals.ULongHexDigits | traceback.c:242-251 | on LP64, an `unsigned long` never needs more than 16 hex digits (`sizeof(long)*2`), so a thread identifier fills its 16-digit field exactly |
| SafeText.EscapeUnitShape | faulthandler.c:192-215 | one code unit is written in at most 10 ASCII characters, and in printable ones only when only printable characters pass through |
| SafeText.DumpAscii | faulthandler.c:166-230 | the output is ASCII for any text, has no control character under printable-only passthrough, and is bounded by the limit (10 per kept unit plus 3) |
| SafeText.DumpAsciiRoundTrip | faulthandler.c:184-229 | decoding the output of a text with no backslash (and no unit above 0xFFFF on a narrow build) gives the kept prefix, followed by "..." exactly when the text was longer than the limit |
| SafeText.EscapeUnitForms | faulthandler.c:192-215 | a unit below 128 is written as itself; otherwise below 256 as `\x` and 2 digits, on a wide build from 0x10000 up as `\U` and 8 digits, and up to 0xFFFF as `\u` and 4 digits, the digits always spelling the unit |
| SafeText.UnescapeEscapeText | faulthandler.c:192-215 | reading the escapes of a text back gives its units in order, and leaves the decoding of what follows untouched |
| SafeText.DumpAsciiVerbatim | faulthandler.c:192-196 | a text made only of pass-through characters is written unchanged, plus "..." after the limit when it is longer |
| Render.DumpFrameShape | traceback.c:153-189 | a frame line starts with "  File ", ends with its newline and is ASCII; under printable-only passthrough that newline is its only one |
| Render.DumpFrameFields | faulthandler.c:237-272 | a frame line is "  File ", the file field, ", line ", the line field, " in ", the name field and a newline; the file field is an unquoted `???` exactly when the file name is missing and otherwise quoted text that decodes back to the kept name; the line field is the number's decimal text on [0, 999999] and empty elsewhere; the name field is `???` when missing and otherwise decodes back to the kept name |
| Render.WalkFramesClosedForm | faulthandler/backtrace.c:186-197 | the frame loop writes the lines of the leading frames up to the cap, stops silently at a link that is not a frame, and writes "  ...\n" exactly when the cap was reached with links left |
| Render.DumpTraceback | faulthandler.c:288-311 | the header comes first when asked for, unless the revision suppresses it for an empty stack (then nothing at all is written); then at most 100 frame lines and "  ...\n" exactly when frames were elided |
| Render.WriteThreadId | faulthandler.c:319-327 | "Current thread 0x" for the current thread and "Thread 0x" otherwise, then 16 hex digits on LP64 (`sizeof(long)*2`) that parse back to the thread identifier, then the revision's suffix |
| Render.WalkThreadsClosedForm | traceback.c:259-289 | the thread loop writes the first min(count, 100) blocks separated by "\n", then "\n...\n" exactly when threads remain |
| Render.DumpThreads | faulthandler/backtrace.c:216-250 | a missing interpreter or an empty thread list is an error message with nothing written; otherwise the first 100 blocks in list order, only the current thread's headed "Current thread" |
| Render.SignalDump | faulthandler.c:688-697 | a handler writes nothing without a thread state; otherwise all threads (failing when that dump reports an error) or the thread's own stack with its header |
| Render.DumpTracebackPy | faulthandler/backtrace.c:288-334 | a bad descriptor, a missing current thread state or an error message from the threads dump is raised, the last two as RuntimeError, and nothing is written; otherwise the dump goes to the file's descriptor |
| Fileno.GetFileno | faulthandler.c:371-403 | the descriptor is accepted exactly when `fileno()` returns an integer strictly between 0 and INT_MAX; a raising `fileno()` propagates its exception, and any other result is RuntimeError "file.fileno() is not a valid file descriptor" |
| Signals.FindOrLast | faulthandler.c:503-507 | the search ends on the first entry for the signal, or on the last entry when there is none |
| Signals.FindFirst | faulthandler.c:950-960 | the index of the first entry for the signal, and None exactly when there is none |
| Signals.FindOrLastAgrees | faulthandler.c:795-824 | when the signal is present, both searches stop on the same entry |
| FatalControl.Initial | faulthandler.c:460-484 | the static table has SIGBUS, SIGILL, SIGFPE, SIGSEGV with their names, in that order, nothing enabled and descriptor 2 |
| FatalControl.InstallAll | faulthandler.c:578-599 | each entry becomes enabled with the replaced disposition saved when its install succeeds and is unchanged otherwise; exactly the installed signals go to the handler and every other disposition stays |
| FatalControl.RestoreAll | faulthandler.c:615-626 | every enabled entry gets its saved disposition back, every entry ends disabled, and no other signal is touched |
| FatalControl.Enable | faulthandler.c:543-603 | a bad descriptor raises with nothing changed; otherwise the old file is given up and file, descriptor and all_threads replaced on every call, while handlers are installed only when it was disabled, and the flag is set even if every install fails |
| FatalControl.Disable | faulthandler.c:606-627 | the file is given up and cleared and the flag ends off; when enabled, only enabled entries get their disposition back and every entry ends disabled; when not enabled, the table and every disposition stay as they were |
| FatalControl.DisablePy | faulthandler.c:630-639 | returns False exactly when the controller was not enabled, and then nothing changes |
| FatalControl.UnloadFatalError | faulthandler.c:648-654 | like `disable`, but the file reference is not given up |
| FatalControl.Dispatch | faulthandler.c:495-540 | the entry found by the search gets its saved disposition back and is marked disabled, the global flag stays, and the output starts with "Fatal Python error: ", the entry's name and a blank line; with no thread state that is all |
| FatalControl.DispatchFallback | faulthandler/fatal_error.c:19-52 | a signal outside the table is served by the SIGSEGV entry, the last one |
| FatalControl.DispatchOwnEntry | faulthandler/fatal_error.c:48-62 | a table signal is served by its own entry, and the other entries, the flag, the file and every other disposition are unchanged |
| FatalControl.EnableConsistent | faulthandler/fatal_error.c:83-143 | `enable` keeps the table's picture of the kernel right: every enabled entry's signal goes to the fatal handler |
| FatalControl.DisableConsistent | faulthandler/fatal_error.c:146-167 | `disable` keeps that picture right |
| FatalControl.DispatchConsistent | faulthandler/fatal_error.c:40-80 | the fatal handler keeps that picture right |
| FatalControl.EnableThenDisable | faulthandler/fatal_error.c:83-167 | from a disabled state, `enable` then `disable` restores every signal's disposition whichever installs failed, and gives up the old and the new file |
| FatalControl.EnableTwice | faulthandler.c:572-601 | a second `enable` installs nothing and changes only the file (giving up the first), the descriptor and all_threads |
| FatalControl.DisablePyTwice | faulthandler/fatal_error.c:169-185 | `disable()` reports whether the controller was enabled, and a second call reports False with nothing changed |
| AlarmControl.DumpLaterAsWritten | faulthandler.c:708-755 | a delay <= 0 is ValueError, then a bad descriptor raises, then a refused SIGALRM install is RuntimeError, each with nothing changed; on success the record is replaced, the handler installed and the timer armed for the delay |
| AlarmControl.DumpLater | faulthandler.c:745-750 | corrected definition of the file leak under "Findings" (the same code is at faulthandler/later.c:87-88): the same errors as the code as written, and on success the same record and timer, but the file held before is given up when the record is replaced |
| AlarmControl.Fire | faulthandler/later.c:18-47 | the firing leaves no timer pending; with no thread state nothing is written and the timer is not re-armed, so a repeating dump stops for good; otherwise the dump is written to the record's descriptor and the timer re-armed for the same delay exactly when the dump succeeded and repeat is set, otherwise the stop path runs |
| AlarmControl.Stop | faulthandler/later.c:100-104 | the timer is disarmed and the dispositions kept; later.c also gives up and clears the file, faulthandler.c keeps it |
| AlarmControl.Cancel | faulthandler.c:766-771 | the timer is disarmed and the file given up and cleared |
| AlarmControl.UnloadLater | faulthandler.c:758-763 | only the timer is disarmed; the file reference is kept |
| AlarmControl.RepeatKeepsArmed | faulthandler.c:699-704 | a repeating single-thread dump that finds its thread state leaves the timer pending for its delay after every firing, whatever was pending before, with the record, the dispositions and the released files unchanged |
| AlarmControl.RepeatStep | faulthandler.c:694-700 | one firing of a repeating single-thread dump that finds its thread state keeps the record and leaves the timer pending for its delay, whatever was pending before |
| AlarmControl.MissingThreadStops | faulthandler.c:681-685 | a firing that finds no thread state leaves no timer pending even for a repeating dump, writes nothing and keeps the record |
| AlarmControl.OneShotStops | faulthandler.c:699-704 | a one-shot timer is disarmed after it fires |
| AlarmControl.ArmThenCancel | faulthandler.c:745-750 | property of the corrected `DumpLater` under "Findings": arming and then cancelling gives up the earlier file and the new one, disarms the timer and leaves the handler installed |
| AlarmControl.ArmTwiceLeaks | faulthandler.c:745-750 | arming twice then cancelling never gives up the first file as written; the corrected version gives up both |
| UserRegistry.Register | faulthandler.c:827-927 | a fatal-table signal is RuntimeError "signal N cannot be registered by register(): use enable() instead", then a bad descriptor raises, then a refused install is OSError, each with nothing changed; on success one entry is appended (duplicates too), saving the disposition it replaced, and the existing entries stay |
| UserRegistry.Unregister | faulthandler.c:940-975 | with no entry for the signal it returns False and changes nothing; otherwise the first entry is removed, later ones shift down, its saved disposition is restored, its file given up, and it returns True |
| UserRegistry.UnloadUser | faulthandler.c:978-991 | every entry's disposition is restored in table order, so the last entry of a signal wins; signals without entries are untouched and no file is given up |
| UserRegistry.RegisterThenUnload | faulthandler.c:978-991 | after registering a new signal, unloading puts back the disposition the signal had before `register()`, leaves every signal without an entry as before, and gives up no file |
| UserRegistry.UserDispatch | faulthandler.c:795-824 | with an empty table nothing happens; otherwise the first entry for the signal, or the last entry when there is none, gets the signal dump on its descriptor |
| UserRegistry.RegisterThenUnregister | faulthandler/user.c:49-195 | registering a new signal and unregistering it gives back the table and every disposition, and gives up the file once |
| UserRegistry.RegisterConsistent | faulthandler/user.c:114-144 | registering a signal not yet present keeps every entry's signal routed to the user handler, with one entry per signal |
| UserRegistry.UnregisterConsistent | faulthandler/user.c:160-195 | unregistering keeps that invariant |
| UserRegistry.RegisterTwiceUnregisterTwice | faulthandler.c:827-975 | registering a signal twice and unregistering it twice leaves no entry but the user handler still installed, because the second entry saved the first one's handler |
| UserRegistry.DispatchUsesFirstEntry | faulthandler/user.c:21-46 | a registered signal is served by its first entry, the one `unregister` removes |
| EarlyHandler.Reinitialised | faulthandler/handler.c:93-110 | the first loop of `enable` gives every entry its signal and name from the fixed list, disabled, keeping only the saved disposition |
| EarlyHandler.EarlyEnable | faulthandler/handler.c:70-128 | nothing changes when already enabled; otherwise the flag is set, each entry enabled exactly when its install succeeded with the replaced disposition saved, and exactly those signals go to the handler |
| EarlyHandler.EarlyDisable | faulthandler/handler.c:137-158 | a no-op when not enabled, the zero-initialised table included; otherwise only enabled entries get their disposition back, and all entries and the flag end disabled |
| EarlyHandler.DisableBeforeEnable | faulthandler/handler.c:137-144 | `disable()` before any `enable()` meets the zero-initialised table, which has none of the fixed signals, and changes nothing |
| EarlyHandler.EarlyDispatch | faulthandler/handler.c:42-67 | the found entry's disposition is restored and it is disabled; descriptor 2 gets "Fatal Python error: ", the name, a blank line, then the stack dump |
| EarlyHandler.NamesAgree | faulthandler/handler.c:94-110 | SIGFPE, SIGBUS and SIGILL get their own names and SIGSEGV "Segmentation fault", the same as the later static table |
| EarlyHandler.EnableIdempotent | faulthandler/handler.c:79-81 | a second `enable` changes nothing |
| EarlyHandler.EnableThenDisableRestores | faulthandler/handler.c:70-158 | from any disabled state, `enable` then `disable` restores every disposition whichever installs failed |
| EarlyHandler.DispatchMatchesLater | faulthandler/handler.c:42-67 | the earliest handler disables the same entry, restores the same disposition and writes the same text as the later fatal handler with descriptor 2 |
| FaulthandlerC.AsciiLimit | faulthandler.c:88 | faulthandler.c writes at most 100 code units of a name and "..." exactly when there were more |
| FaulthandlerC.LongNameTruncated | faulthandler.c:184-229 | a 150-letter name is written as its first 100 letters and "..." |
| TracebackC.LongNameTruncated | traceback.c:98-146 | a 550-letter name is written as its first 500 letters and "..." |
| TracebackC.HeaderWithoutFrames | traceback.c:192-216 | the "Stack (most recent call first):" header is written for a thread without frames too, and then nothing else |
| TracebackC.FrameLineIsOneLine | traceback.c:105-131 | with only ' '..'~' passing through, a name cannot put a newline inside a frame line |
| TracebackC.DumpBytes | traceback.c:132-143 | the corrected byte-string path writes printable ASCII, at most 4 characters per byte |
| TracebackC.DumpBytesRoundTrip | traceback.c:132-146 | decoding what the corrected path writes gives back the kept bytes, then "..." exactly when bytes were cut |
| TracebackC.HighByteSignExtended | traceback.c:132-143 | as written, a byte from 0x80 up is written as `\x` and 16 digits (on LP64) spelling its sign-extended value; corrected, as `\x` and its own 2 digits |
| TracebackC.SignExtensionExample | traceback.c:132-143 | the name b"\x80" is written in 18 characters as written, and as `\x80` when corrected |
| BacktraceC.NeverTruncates | faulthandler/backtrace.c:69-120 | every code unit is written, and decoding the output gives the whole text back |
| BacktraceC.NothingWithoutFrames | faulthandler/backtrace.c:180-182 | a thread without frames writes nothing, not even the header |
| BacktraceC.HeaderIffAsked | faulthandler/backtrace.c:180-197 | with frames, the output starts with the "Traceback" header exactly when it is asked for; without it the output opens on the first frame line, or is empty when the first link is not a frame |

## Left out

- Argument parsing, the `sys.stderr` lookup and its error, and reference counts. The model keeps only a log of the file references given up (`Env.released`).
- Module tables, module initialisation and the `VERSION` constant.
- The `write`, `sigaction`, `signal` and `alarm` system calls. These are updates of `Env` and output values (`Written`). Short writes and `write` errors are not modelled.
- Signal asynchrony, re-entrancy and timing. Each handler is one atomic transition.
- `sigaltstack` allocation and freeing.
- The crash triggers (`_sigsegv`, `_sigfpe`, `_sigbus`, `_sigill`) and faulthandler/tests.c.
- The failure of `realloc` and the size-overflow check in `register`, both of which leave the count incremented.
- The NULL dereference in faulthandler/user.c's handler when the table is empty. `UserDispatch` follows faulthandler.c, which returns without writing.
- The allowed-signal list of Windows builds.
- Numerals.ULongHexWidth / Render.WriteThreadId: the model assumes LP64 (64-bit `long`). On LLP64 Windows `sizeof(long)*2` is 8, so thread identifiers and sign-extended bytes are written with 8 digits there, not 16.
- The all-threads dump of traceback.c with no interpreter. That code passes a NULL interpreter straight to `PyInterpreterState_ThreadHead` and crashes, so the dumps that do not check the interpreter are modelled only with one: the handlers and `DumpThreads` require it.
- The `flush()` call in `get_fileno`: its error is cleared, so it has no effect on the result.
- `PyLong_AsLong` overflow becomes -1. Its OverflowError is replaced by the RuntimeError the model returns.
- The stack dump of faulthandler/handler.c is in a file that is not part of this model. `EarlyDispatch` takes the dumped text as a parameter.
- The non-`sigaction` build, which uses `signal()`, is not modelled. The model follows the `HAVE_SIGACTION` branches.
- time.c, setup.py, release.py, tests.py and faulthandler/faulthandler.h.
- Some features appear only in the Python tests or in later descriptions of the module, not in this code:
  - a custom header;
  - chaining to the previous handler;
  - exiting after a timeout;
  - the "Timeout" header;
  - `_read_null` and `_sigabrt`.
- Where such a description disagrees with this code, the model follows the code:
  - `register` appends a duplicate entry for a signal already registered, rather than updating it in place;
  - `dump_traceback_later` does not give up the file it held before.
- The disposition that the SIGALRM install replaces is not kept. The code discards it too.
- Numerals.DumpDecimal: the C `int` argument is any Dafny `int`. Only its range check matters.
- UserRegistry.UnloadUser: returns only the new process state. The table the code empties is left to the caller, as the empty sequence.
- FatalControl.Dispatch: for the stack text after the banner, the contract gives only the prefix. `EarlyHandler.DispatchMatchesLater` pins the text down against the signal dump.

## Findings

| source | as written | input that shows it | evidently intended | confidence | as-written member | corrected member |
|---|---|---|---|---|---|---|
| traceback.c:132-143 | in the Python 2 path each byte is read through a (signed) `char` into an `unsigned long`, so bytes from 0x80 up are sign-extended and written as `\x` followed by 16 hex digits on LP64 | on LP64, the one-byte name b"\x80" is written as `\xffffffffffffff80` (18 characters) | `\x80`, the byte's own two digits, as the text path writes it | medium (platforms with signed `char`); not executed | TracebackC.DumpBytesAsWritten (shown by TracebackC.HighByteSignExtended and TracebackC.SignExtensionExample) | TracebackC.DumpBytes |
| faulthandler.c:745-750 | `dump_traceback_later` overwrites `fault_alarm.file` without releasing the reference it held; faulthandler/later.c:87-88 does the same | two consecutive `dump_traceback_later` calls with files f1 and f2, then `cancel_dump_traceback_later()`: f1's reference is never given up | release the old file first, as `enable` does for its own file | high; not executed | AlarmControl.DumpLaterAsWritten (shown by AlarmControl.ArmTwiceLeaks) | AlarmControl.DumpLater |
