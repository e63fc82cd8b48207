# Penetration-testing toolkit: probing core in Dafny

This project models the decision logic of a small penetration-testing toolkit, with its I/O replaced by oracles:

- **Password-list normalisation** (`main.py`). `clean_password` drops a leading run of U+FEFF, deletes the mis-decoded BOM text "ï»¿", deletes NUL and then strips whitespace. `read_password_file` keeps the non-blank lines, in order, and cleans each one. The file path and the standard-input path are both modelled.
- **Exit status of the `brute` command** (`main.py`):
  - 1 when the list is unreadable or empty;
  - 0 when a credential is found;
  - 2 when none is found.
- **Credential prober** (`toolkit/brute_forcer.py`):
  - the form request built for each attempt;
  - the three-rule response heuristic `is_login_success`;
  - the sequential, short-circuiting walk `brute_force_login`.

  The HTTP round trip is an oracle `send: LoginRequest -> Reply`. A request error and an exception raised by the classifier are explicit outcomes.
- **Port scanner** (`toolkit/port_scanner.py`). `scan_ports` probes every port of `range(start, end + 1)`, gathers the truthy results in completion order and sorts them. The connection attempt is an oracle `connect: int -> bool`, and a future whose `result()` raises is an oracle `raises: int -> bool`. The completion order is any sequence with the same multiset as the range.

Modules:

- `Wrappers`: `Option`.
- `Text`: the Python `str` operations used:
  - `isspace` / `strip`;
  - `lstrip` of one character;
  - substring `in`;
  - `replace(p, "")`;
  - ASCII `lower`.
- `Passwords`: `clean_password` and the line filter.
- `Cli`: the exit status.
- `BruteForcer`: the request record, the classifier and the prober.
- `Sorting`: `list.sort` on integers.
- `PortScanner`: the scan.

Where the code and its own docstrings differ, the model follows the code. `scan_ports` promises "a sorted list of open ports", `read_password_file` promises cleaned passwords with BOMs stripped, and `clean_password` promises to "Remove BOMs". In fact:

- The scan result drops port 0 even when a connection to it opens, because `if res:` treats `0` as false (`PortScanner.Reported`).
- The standard-input path strips each line before cleaning it, and the file path does not. So the two paths give different passwords for a line made of whitespace, U+FEFF and an ordinary character, such as `" ﻿a"` (`Passwords.StdinAndFileDiffer`).
- A `clean_password` result can still contain "ï»¿" (`Passwords.MisdecodedBomCanSurvive`).
- `clean_password` is not idempotent (`Passwords.CleanPasswordNotIdempotent`).

## Model

| member | source | states |
|---|---|---|
| Text.Strip | main.py:65 | the result has no whitespace at either end and is no longer than the input; it is empty exactly when the input is all whitespace; input without surrounding whitespace is returned unchanged |
| Text.StripIsSlice | main.py:65 | what `strip()` keeps is one contiguous slice of the input, and everything before and after it is whitespace |
| Text.StripChars | main.py:65 | `strip()` invents no character: each one in the result occurs in the input |
| Text.LStripChar | main.py:60 | `lstrip(c)` keeps a suffix that does not start with `c`, and everything it removed was `c` |
| Text.DeleteChar | main.py:64 | `replace(c, "")` keeps exactly the characters other than `c`, never lengthens, and is the identity when `c` is absent |
| Text.DeleteCharOne | main.py:64 | on a single character, `replace(c, "")` drops it exactly when it is `c` |
| Text.DeleteCharAppend | main.py:64 | `replace(c, "")` on a concatenation is the concatenation of the results, so with `DeleteCharOne` every other character is kept in its original order and multiplicity |
| Text.Contains | toolkit/brute_forcer.py:27 | `tok in body` holds exactly when `tok` occurs in `body` at some index |
| Text.ContainsPrefix | toolkit/brute_forcer.py:23-27 | a body containing a token also contains every prefix of that token |
| Text.DeleteAll | main.py:62 | `replace(p, "")` never lengthens, invents no character, and is the identity when `p` does not occur |
| Text.DeleteAllAtFront | main.py:62 | an occurrence of `p` at the front is removed and the scan resumes right behind it |
| Text.DeleteAllKeepsPrefix | main.py:62 | when `p` starts at none of the first `k` positions, those `k` characters are kept as they are and the scan continues from position `k` |
| Text.DeleteAllLeftmost | main.py:62 | the leftmost occurrence of `p` is removed: when `p` does not occur in `a` followed by all but the last character of `p`, `replace` on `a + p + b` gives `a` followed by `replace` on `b` |
| Text.LowerChar | toolkit/brute_forcer.py:22 | `lower()` maps each ASCII capital to its own lower-case letter (32 code points on), leaves every other character alone, and never yields a capital |
| Text.Lower | toolkit/brute_forcer.py:22 | `lower()` keeps the length, lowers each character in place, and leaves no ASCII capital in the result |
| Text.LowerIdempotent | toolkit/brute_forcer.py:22 | lowering a lowered string changes nothing, and lowering a concatenation lowers each part |
| Passwords.CleanPassword | main.py:50-65 | the cleaned password has no surrounding whitespace, no NUL, is no longer than the input and invents no character; input that no step touches is returned unchanged |
| Passwords.LeadingBomIgnored | main.py:60-65 | a U+FEFF in front of any text does not change the cleaned password |
| Passwords.CleanPasswordWithoutArtefact | main.py:60-65 | on text without 'ï' that does not start with U+FEFF, cleaning is NUL deletion followed by `strip()`, so every other character is kept in order apart from surrounding whitespace |
| Passwords.NoMisdecodedBomWithout | main.py:62 | a string without 'ï' cannot contain "ï»¿" |
| Passwords.CleanPasswordOfPlain | main.py:58-65 | on text without whitespace or 'ï' and without a leading U+FEFF, cleaning only deletes NUL |
| Passwords.MisdecodedBomCanSurvive | main.py:62 | "ïï»¿»¿" cleans to "ï»¿": a BOM artefact can remain after cleaning |
| Passwords.NulHidesBom | main.py:60-64 | for every ordinary character `x` (one that is not whitespace, NUL, U+FEFF or 'ï'), NUL, U+FEFF, `x` cleans to U+FEFF, `x`: a NUL in front hides the BOM from `lstrip` |
| Passwords.LeadingBomRemoved | main.py:60 | for every ordinary character `x`, U+FEFF, `x` cleans to `x` |
| Passwords.CleanPasswordNotIdempotent | main.py:60-65 | for every ordinary character `x` (for instance "\0﻿a"), NUL, U+FEFF, `x` cleans to U+FEFF, `x`, which cleans again to `x` |
| Passwords.BomBehindSpaceSurvives | main.py:60-65 | for every whitespace character and every ordinary `x`, a U+FEFF behind the whitespace is kept: " ﻿a" cleans to "﻿a" |
| Passwords.NulCleansToEmpty | main.py:64-65 | a lone NUL cleans to the empty string |
| Passwords.KeptIndices | main.py:40 | the kept positions are in range, strictly increasing, each holds a non-blank line, and every non-blank line's position is among them |
| Passwords.CleanKept | main.py:40 | one entry per kept line, in line order, each being the cleaning function applied to that line |
| Passwords.LoadFromFile | main.py:39-40 | the list read from a file has one entry per non-blank line, in order, each the `clean_password` of that line |
| Passwords.CleanStripped | main.py:25-26 | a line stripped and then cleaned has no surrounding whitespace and no NUL |
| Passwords.LoadFromStdin | main.py:24-26 | the list read from standard input has one entry per non-blank line, in order, each the cleaned stripped line |
| Passwords.CleanKeptOne | main.py:40 | a single non-blank line yields exactly one entry, its cleaned form |
| Passwords.StdinAndFileDiffer | main.py:25-40 | for every whitespace character and every ordinary `x`, the line whitespace, U+FEFF, `x` (for instance " ﻿a") loads as U+FEFF, `x` from a file but as `x` from standard input |
| Passwords.NulLineGivesEmptyEntry | main.py:40 | a line holding only NUL is kept and becomes an empty password |
| Cli.BruteExitCode | main.py:101-118 | the exit status is 1 exactly when the list is unreadable or empty, 0 exactly when it is non-empty and some candidate is accepted, and 2 exactly when it is non-empty and none is |
| Cli.NulOnlyFileExitsTwo | main.py:101-118 | a file holding only a NUL line exits with 2 (login failed), not 1 (empty file) |
| BruteForcer.MakeLoginRequest | toolkit/brute_forcer.py:7-13 | the request goes to the given URL with exactly the form fields `username` and `password` set to the inputs, the header `User-Agent: Toolkit/1.0`, redirects followed and a 10-second timeout |
| BruteForcer.FormCarriesCredential | toolkit/brute_forcer.py:11 | the credential read back from the form is the one being tried |
| BruteForcer.AnyTokenIn | toolkit/brute_forcer.py:27 | `any(tok in body ...)` holds exactly when some token occurs in the body |
| BruteForcer.IsLoginSuccess | toolkit/brute_forcer.py:15-29 | a status in [300, 400) is success whatever the body; otherwise the verdict is failure exactly when the lower-cased body contains a failure token, and success otherwise; the classifier raises only when the body is unreadable and the status is not a redirect |
| BruteForcer.InvalidCredentialsRedundant | toolkit/brute_forcer.py:23-27 | dropping "invalid credentials" from the token list never changes a verdict |
| BruteForcer.RedirectOverridesBody | toolkit/brute_forcer.py:20-21 | status 302 with body "login failed" is success |
| BruteForcer.FailureTokenAnyCase | toolkit/brute_forcer.py:22-28 | status 200 with body "Invalid credentials" is failure |
| BruteForcer.SilentPageIsSuccess | toolkit/brute_forcer.py:27-29 | status 200 with body "Welcome" is success |
| BruteForcer.Stripped | toolkit/brute_forcer.py:46 | each stripped entry is trimmed, is one contiguous slice of its list entry with only whitespace around it, and is empty exactly when the entry is blank |
| BruteForcer.NonEmptyIndices | toolkit/brute_forcer.py:47-48 | the listed positions are in range, strictly increasing, each holds a non-empty entry, and every non-empty entry's position is among them |
| BruteForcer.NonBlank | toolkit/brute_forcer.py:47-48 | the entries kept are all non-empty and are no more than the input |
| BruteForcer.NonBlankAppend | toolkit/brute_forcer.py:45-48 | skipping empty entries works piece by piece over a concatenated list |
| BruteForcer.NonBlankByIndex | toolkit/brute_forcer.py:45-48 | the kept entries are exactly the entries at the positions of the non-empty ones, in list order |
| BruteForcer.NonBlankKeepsEntries | toolkit/brute_forcer.py:47-48 | every entry kept is one of the input's entries |
| BruteForcer.Candidates | toolkit/brute_forcer.py:45-48 | the passwords tried are non-empty and are no more than the list entries |
| BruteForcer.CandidatesInOrder | toolkit/brute_forcer.py:45-48 | the passwords tried are the stripped forms of exactly the non-blank list entries, in list order: no non-blank entry is skipped and no blank one is tried |
| BruteForcer.CandidatesTrimmed | toolkit/brute_forcer.py:46 | every password tried has no whitespace at either end |
| BruteForcer.FirstSuccess | toolkit/brute_forcer.py:45-65 | the position found is that of a succeeding candidate with no succeeding candidate before it; when none is found, no candidate succeeds |
| BruteForcer.AttemptsFollowReference | toolkit/brute_forcer.py:45-69 | the loop returns the reference run: the first succeeding non-empty entry, having tried exactly the non-empty entries up to it, or nothing after trying all of them |
| BruteForcer.ReferenceRunMeaning | toolkit/brute_forcer.py:45-69 | the reference run finds a credential exactly when some candidate succeeds; it then has tried exactly the candidates up to the first success, which it returns with the username, and every earlier one failed; otherwise it has tried every candidate |
| BruteForcer.BruteForceLogin | toolkit/brute_forcer.py:39-69 | a credential is returned exactly when some candidate succeeds; the trace is then the candidates up to and including the first success, the credential is the given username with that password, and every earlier attempt failed; with no success the trace is every candidate |
| BruteForcer.AllBlankTriesNothing | toolkit/brute_forcer.py:46-48 | a list of blank entries makes no attempt and returns nothing |
| BruteForcer.BlankCandidates | toolkit/brute_forcer.py:46-48 | a list of blank entries yields no candidate |
| BruteForcer.EmptyEntriesNonBlank | toolkit/brute_forcer.py:47-48 | a list of empty entries keeps none |
| BruteForcer.ErrorsNeverHalt | toolkit/brute_forcer.py:56-67 | an attempt ending in a request error or a classifier exception is followed by the next candidate |
| BruteForcer.FoundAtFirstSuccess | toolkit/brute_forcer.py:45-65 | when the candidate at position `k` is the first to succeed, the walk returns it with the username after trying exactly the candidates up to it |
| BruteForcer.TrimmedAreCandidates | toolkit/brute_forcer.py:45-48 | three non-empty, already trimmed passwords are tried as given, in order |
| BruteForcer.FirstMatchWins | toolkit/brute_forcer.py:63-65 | when the second of three passwords is accepted, it is returned and the third is never tried |
| Sorting.SortedCons | toolkit/port_scanner.py:42 | a lower bound put in front of a sorted list keeps it sorted |
| Sorting.Insert | toolkit/port_scanner.py:42 | inserting into a sorted list keeps it sorted and adds exactly the one element |
| Sorting.Sort | toolkit/port_scanner.py:42 | `sort()` yields an ascending permutation of its input |
| Sorting.HeadIsLeast | toolkit/port_scanner.py:42 | the first element of a sorted list is no greater than any of its elements |
| Sorting.TailMultiset | toolkit/port_scanner.py:42 | dropping the first element removes exactly one copy of it |
| Sorting.SortedUnique | toolkit/port_scanner.py:42 | a multiset has only one ascending arrangement |
| Sorting.SortOfSorted | toolkit/port_scanner.py:42 | sorting an ascending list leaves it unchanged |
| Sorting.SortedOnceIsStrict | toolkit/port_scanner.py:42 | a sorted list without repeats is strictly ascending |
| Sorting.StrictUnique | toolkit/port_scanner.py:42 | two strictly ascending lists with the same elements are equal |
| PortScanner.Range | toolkit/port_scanner.py:19 | `range(lo, hi + 1)` lists `lo` to `hi` in ascending order and is empty when `lo > hi` |
| PortScanner.RangeOnce | toolkit/port_scanner.py:19 | each port of the range is submitted exactly once, and no other port is |
| PortScanner.CheckPort | toolkit/port_scanner.py:7-12 | the probe returns the port when the connection opens and `None` otherwise |
| PortScanner.GatherShown | toolkit/port_scanner.py:26-32 | with the progress bar, a future contributes its value exactly when it returned a truthy result, and at most one value |
| PortScanner.GatherQuiet | toolkit/port_scanner.py:34-40 | without the progress bar, a future contributes exactly what it contributes with the progress bar |
| PortScanner.Collected | toolkit/port_scanner.py:22-40 | the gathered ports are a sub-multiset of the completed futures' ports, and a port is among them exactly when its future completed and it is reported open |
| PortScanner.ScanPorts | toolkit/port_scanner.py:14-43 | the result is strictly ascending, so sorted and without duplicates; it holds exactly the ports in `[start, end]` that connect, do not raise and are not 0; it is empty when `start > end` |
| PortScanner.OpenPorts | toolkit/port_scanner.py:17 | the reference list, built in range order, is strictly ascending and holds exactly the reported ports of the range |
| PortScanner.ScanIsReference | toolkit/port_scanner.py:19-42 | every completion order and either loop give the reference list |
| PortScanner.ScanIndependentOfOrder | toolkit/port_scanner.py:26-42 | two scans of the same range give the same list, whatever their completion orders and progress settings |
| PortScanner.RaiseActsAsClosed | toolkit/port_scanner.py:29-30 | a future that raises has the same effect as a refused connection, and no other port is affected |

## Left out

- Networking: `requests.post` and `socket.create_connection` are the oracles `send` and `connect`, and the targets and sockets themselves are not modelled.
- Timeouts: the scanner's 0.15-second default and all wall-clock behaviour are not modelled. The login request's timeout appears only as the field value 10.
- Concurrency: the `ThreadPoolExecutor`, its worker bound and the thread interleavings are not modelled. Only the completion order is, as an arbitrary arrangement of the range.
- Presentation: `tqdm`, `colorama` and every `print` are left out. The prober's trace `Run.tried` stands for the "Trying password" output.
- `read_password_file` file access:
  - the path check;
  - the reading of standard input;
  - `splitlines`;
  - the encoding-fallback loop.

  These are I/O, so the model starts from the decoded lines.
- The encoding fallback in `read_password_file` (main.py:36-42): when one encoding yields no non-blank line, the next is tried. A file that is blank under UTF-8 can therefore load as a non-empty list under a later encoding. For example, the bytes "\n\n" decode under UTF-16 to the single line U+0A0A, so the prober runs and the exit status is 0 or 2, not 1. The model takes the lines of whichever decoding was used as its input and does not model which one that is.
- `clean_password`'s `None` guard and `str()` conversion, and `_ensure_str`'s bytes decoding: every password is already a string.
- Text.Lower: does not model Unicode case mapping beyond ASCII, because every failure token is ASCII. A non-ASCII capital that lowers to ASCII letters, such as U+0130, is therefore not covered.
- Text.DeleteAll: states no "no occurrence remains" property, because Python's `replace` can leave one: see `Passwords.MisdecodedBomCanSurvive`. Its behaviour on text containing the pattern is given by `Text.DeleteAllLeftmost` rather than by its own contract.
- Argument parsing, the `scan` and `vuln` commands, `is_valid_ip`, `test_sql_injection` and `test_xss`: the last three live in modules that are not part of this model.
- Cli.BruteExitCode: the prober is not run for an empty list, which the mapping reflects. It does not separately state that no request is sent, because the oracle model has no notion of a request being sent outside `BruteForceLogin`.
- Exceptions that are not `Exception` subclasses, such as `KeyboardInterrupt`: they abort both loops and are not modelled.
- Other exceptions from `make_login_request`: `brute_force_login` catches only `requests.RequestException` around the request (toolkit/brute_forcer.py:57-61). Any other exception raised there ends the walk and the command with a traceback. `Reply` has no such outcome, so the model assumes every failed request raises a `RequestException`.
- A stateful server: the oracle `send` is a pure function of the request, so a password listed twice always gets the same reply. Replies that depend on earlier attempts are not modelled, such as a lockout, a rate limit, or a transient error on the first copy followed by success on the second. Every `BruteForcer.BruteForceLogin` property is stated under this assumption.
