# py_ugoira, modelled in Dafny

`py_ugoira.py` downloads one Pixiv ugoira (an animation shipped as a zip of
frames plus per-frame delays) and turns it into a video with FFmpeg. This
project models the parts of that script that compute something, and proves
properties about them:

- **Duration text** (`duration.dfy`, module `Duration`): how
  `round(delay / 1000, 4)` prints for an integer delay in milliseconds, with a
  parser that reads the text back.
- **Concat descriptor** (`ffconcat.dfy`, module `Ffconcat`): how
  `ffconcat.txt` is written. The frame list is extended in place with a copy
  of the last frame whose delay is 1 ms. Then one `file`/`duration` block is
  written per frame after the header. The metadata object is a class whose
  frame list the writer mutates. The writer is a method with a loop, proved
  against a descriptor function. A parser for the descriptor format
  recovers every record from the text.
- **Archive URL rewrite** (`url_rewrite.dfy`, module `UrlRewrite`):
  `re.sub(r'ugoira\d+x\d+', 'ugoira1920x1080', src)`, with Python's
  left-to-right, non-overlapping scan.
- **Metadata locator** (`metadata_locator.dfy`, module `MetadataLocator`):
  `re.search(r'pixiv\.context\.ugokuIllustData\s+=(.+?);', text)` and its
  first group. It is modelled by position-by-position search with a greedy
  whitespace run and a lazy group. It is proved against a declarative
  statement of the pattern: it finds the leftmost match and the shortest
  group.
- **Frame fetching logic** (`get_frames.dfy`, module `GetFrames`): the
  decisions `get_ugoira_frames` takes between the fetched page and the
  written descriptor, and its success flag.
- **Encoder command** (`encoder.dfy`, module `Encoder`): the FFmpeg command
  string and working directory of `convert_ugoira_frames`.
- **Command line** (`cli.dfy`, module `Cli`): the required-argument checks of
  `parse_args`, and which stages the main block runs, in which directory,
  and with which exit status.

`wrappers.dfy` holds `Option`. `seqs.dfy` holds generic sequence lemmas and `Map`.

Behaviour of the script worth knowing:

- The appended trailer record always has a duration of 0.001 s. The record
  before it has the last frame's own delay. When that delay is 1 ms, the
  last two records have the same duration `0.001`.
- A source URL without a `ugoira<W>x<H>` token passes through the rewrite
  unchanged. The script raises no error for it.
- FFmpeg's exit status is ignored, so an encode that FFmpeg reports as
  failed still ends the run with status 0. A conversion that raises ends it
  with status 1. Causes include an unbalanced quote in the command string
  (`shlex.split`), or an encoder or frame directory that does not exist
  (`subprocess.call`).
- The script does not check archive member paths. `zipfile` itself strips
  leading slashes and `..` components when it extracts.
- A metadata value that decodes to a false JSON value (`{}`, `[]`, `null`,
  `0`, `""`) counts as "no metadata": the function returns False.
- An empty frame list is not rejected up front. The header is written, and
  then indexing the last frame raises `IndexError`.

## Model

| member | source | states |
|---|---|---|
| Duration.SecondsRoundTrip | py_ugoira.py:73-74 | the printed duration of a delay parses back to that delay in milliseconds, so the text loses nothing |
| Duration.SecondsInjective | py_ugoira.py:73-74 | two delays print the same duration text exactly when they are equal |
| Duration.SecondsExamples | py_ugoira.py:73-74 | 100, 200, 1000, 1 and 0 ms print as `0.1`, `0.2`, `1.0`, `0.001` and `0.0`, as Python's float formatting does |
| Duration.Seconds | py_ugoira.py:73-74 | the text has at least three characters, holds only digits and `.`, and has no trailing zero except the single digit after the point |
| Duration.ParseDecimal | py_ugoira.py:74 | a digit string, a point and one to three fraction digits read back as whole seconds times 1000 plus the scaled fraction |
| Ffconcat.UgoiraData.constructor | py_ugoira.py:30 | the decoded metadata object holds the archive URL and the frame list it was given |
| Ffconcat.WriteFfconcat | py_ugoira.py:63-79 | appends to the object's frame list a copy of the last frame with delay 1, leaves the earlier frames and the URL unchanged, and returns the header followed by one block per frame of the extended list |
| Ffconcat.ParseBlocksOf | py_ugoira.py:71-79 | the blocks written for a frame list parse back to one `(file, duration text)` entry per frame, in order |
| Ffconcat.ParseDescriptorOf | py_ugoira.py:63-79 | a whole descriptor parses back: the header, then the entries of the frame list extended by the trailer frame |
| Ffconcat.DescriptorShape | py_ugoira.py:63-79 | the descriptor has exactly one record more than there are frames; record i names frame i and prints its delay; the last record names the last frame with duration `0.001` |
| Ffconcat.DescriptorDurations | py_ugoira.py:67-78 | every record's duration text reads back as the delay of the corresponding frame of the extended list |
| Ffconcat.LastTwoRecords | py_ugoira.py:67-69 | the last two records name the same file, and their durations are equal exactly when the last frame's delay is 1 ms |
| Ffconcat.TwoFrameExample | py_ugoira.py:63-79 | frames `000000.jpg`/100 ms and `000001.jpg`/200 ms produce the full expected descriptor text, ending with `000001.jpg` at `0.001` |
| UrlRewrite.RewriteIdempotent | py_ugoira.py:36 | rewriting an already rewritten URL changes nothing: the output has no resolution token other than the replacement |
| UrlRewrite.RewriteNoToken | py_ugoira.py:36 | a URL in which `ugoira\d+x\d+` matches at no position is returned unchanged |
| UrlRewrite.RewriteExample | py_ugoira.py:36 | `/img/ugoira600x600.zip` becomes `/img/ugoira1920x1080.zip` |
| UrlRewrite.RewriteNoU | py_ugoira.py:36 | text without the letter `u` cannot hold the token and is copied unchanged |
| UrlRewrite.RewritePassThrough | py_ugoira.py:36 | characters before which no match can start are copied, and the rest is rewritten on its own |
| UrlRewrite.MatchAt | py_ugoira.py:36 | a match at the start covers at least nine characters and lies within the text |
| UrlRewrite.MatchTransfer | py_ugoira.py:36 | whether the pattern matches depends only on the characters it covers and on whether the next one is a digit (greedy `\d+`) |
| MetadataLocator.SearchSound | py_ugoira.py:25 | what the search finds is a match of the pattern; no match starts further left; its group is a prefix of every group possible at that start (lazy `.+?`) |
| MetadataLocator.SearchComplete | py_ugoira.py:25 | if the pattern matches anywhere, the search finds a match starting no further right |
| MetadataLocator.LocateCapture | py_ugoira.py:25-27 | the group returned is non-empty, has no newline, and is the group of the match the search found |
| MetadataLocator.LocateNone | py_ugoira.py:25-26 | the locator finds nothing exactly when the pattern matches nowhere in the page |
| MetadataLocator.LazyEnd | py_ugoira.py:25 | the lazy group ends at the first `;` when no newline precedes it, and the group cannot end at any `;` when a newline lies before it |
| MetadataLocator.MatchFromSound | py_ugoira.py:25 | a match at one position satisfies the pattern and its group holds no `;` after its first character |
| MetadataLocator.MatchFromComplete | py_ugoira.py:25 | wherever the pattern can match, the search at that position succeeds with the same whitespace run and the shortest group |
| GetFrames.GetUgoiraFrames | py_ugoira.py:25-87 | returns failure exactly when no metadata is found, decoding fails or the value is false; otherwise the archive URL is the rewritten `src`; an empty frame list stops after the header; otherwise the written text is the descriptor of the frames |
| GetFrames.NoMarkerFails | py_ugoira.py:25-34 | a page in which the marker assignment matches nowhere leads to failure |
| GetFrames.CaptureAlwaysDecoded | py_ugoira.py:26-30 | the non-empty-group test never rejects a found group, so every found group reaches the decoder |
| Encoder.ConvertUgoiraFrames | py_ugoira.py:90-109 | the process runs in the frame directory, and its command line is the fields in order, each followed by one space |
| Encoder.CallStringFields | py_ugoira.py:95-101 | `call_str` is the quoted encoder, `-hide_banner`, `-y`, `-i`, `ffconcat.txt`, the filter or nothing, the caller's arguments and the quoted output, each followed by a space |
| Encoder.FilterPlacement | py_ugoira.py:91-98 | right after the input part, the command starts a filter option exactly when interpolation is requested |
| Encoder.InterpolationInsertsFilter | py_ugoira.py:91-98 | the interpolating command is the plain command with the filter inserted after the input part and nothing else changed |
| Cli.CheckArgs | py_ugoira.py:188-194 | a usage error occurs exactly when a fetching mode lacks a truthy ID or `convertframes` lacks a non-empty path, with the message naming the first missing option |
| Cli.Main | py_ugoira.py:190-228 | `all` fetches into `ugoira_<id>` beside the script and, if that succeeds, converts there; `getframes` only fetches; `convertframes` converts in the given path; a failed fetch stops the run before converting, and a conversion that raises ends it as failed |
| Cli.StagesHaveInputs | py_ugoira.py:205-228 | every stage that runs has the inputs it needs, and a conversion runs last, in the directory the fetch wrote or in the given path |
| Cli.ExitStatus | py_ugoira.py:191-215 | status 2 exactly for a usage error (`parser.error`), 0 exactly for a run that finishes, 1 for a failed fetch (`sys.exit(1)`) or a conversion that raises |
| Cli.ExitStatusMeaning | py_ugoira.py:190-228 | the run exits with 0 exactly when the arguments pass, any requested fetch succeeds and any requested conversion does not raise; with 2 exactly when an argument is missing; with 1 otherwise |
| Cli.ZeroIdRejected | py_ugoira.py:190-191 | an ID of 0 is rejected as missing in the fetching modes |
| Cli.UgoiraPathInjective | py_ugoira.py:206 | two IDs get the same download directory beside the script exactly when they are equal |
| Cli.IntTextInjective | py_ugoira.py:206 | `str` of two IDs is the same text exactly when the IDs are equal |
| Cli.IntText | py_ugoira.py:206 | `str(id)` is non-empty and starts with `-` exactly when the ID is negative |
| Cli.JoinPath | py_ugoira.py:206 | POSIX `os.path.join` of a relative name keeps the base as a prefix, ends with the name, and inserts one `/` exactly when the base is non-empty and does not already end with one |
| Cli.UgoiraPath | py_ugoira.py:206 | the directory `ugoira_<id>` joined to the script's directory; its injectivity is `Cli.UgoiraPathInjective` |
| UrlRewrite.Rewrite | py_ugoira.py:36 | `re.sub` with the resolution pattern: at each position the longest token is replaced and scanning resumes after it, other characters are copied; its properties are `UrlRewrite.RewriteIdempotent`, `UrlRewrite.RewriteNoToken` and `UrlRewrite.RewritePassThrough` |
| UrlRewrite.MatchAtIff | py_ugoira.py:36 | the pattern matches `n` characters at the start exactly when they form a token `ugoira`, digits, `x`, digits and the next character is not a digit |
| UrlRewrite.MatchAtComplete | py_ugoira.py:36 | every token at the start of the text is found, and the match found is at least as long as any of them (greedy `\d+`) |
| UrlRewrite.MatchAtNone | py_ugoira.py:36 | the pattern fails at the start exactly when no prefix of the text is a token |
| UrlRewrite.MatchAtSound | py_ugoira.py:36 | what is matched at the start is a token not followed by a digit |
| MetadataLocator.MatchFrom | py_ugoira.py:25 | the pattern tried at one start position; a match found there records that start; its meaning is `MetadataLocator.MatchFromSound` and `MetadataLocator.MatchFromComplete` |
| MetadataLocator.SearchFrom | py_ugoira.py:25 | a match found from a position starts at or after it and is the match at its own start |
| MetadataLocator.Search | py_ugoira.py:25 | `re.search` from the start of the page; its meaning is `MetadataLocator.SearchSound` and `MetadataLocator.SearchComplete` |
| MetadataLocator.Locate | py_ugoira.py:25-27 | the first group of the search's match, if any; its meaning is `MetadataLocator.LocateCapture` and `MetadataLocator.LocateNone` |
| Ffconcat.Descriptor | py_ugoira.py:63-79 | the header, then one block per frame of the list extended by the trailer frame; its meaning is `Ffconcat.ParseDescriptorOf`, `Ffconcat.DescriptorShape` and `Ffconcat.LastTwoRecords` |
| Ffconcat.WithTrailer | py_ugoira.py:67-69 | the frame list with a copy of its last frame, delay set to 1 ms, appended |
| Ffconcat.Blocks | py_ugoira.py:71-79 | the blocks of the frames in list order; `Ffconcat.BlocksSnoc` shows appending a frame appends its block, which the writer's loop invariant uses |
| Ffconcat.BlocksSnoc | py_ugoira.py:71-79 | the blocks of a list with one frame appended are the blocks of the list followed by that frame's block |
| Ffconcat.Block | py_ugoira.py:76-79 | one `file` line, one `duration` line and a blank line; read back by `Ffconcat.ParseBlockOf` |
| Ffconcat.ParseBlockOf | py_ugoira.py:76-79 | for a file name without a newline, a written block followed by any text parses back to the frame's entry and exactly that text |
| Encoder.InterpolateArg | py_ugoira.py:91-93 | the interpolation filter when `interpolate` is set, the empty string otherwise |
| Encoder.CallString | py_ugoira.py:95-101 | the command string; its field structure is `Encoder.CallStringFields` |
| GetFrames.Succeeded | py_ugoira.py:81-87 | `is_process_success`: true exactly for the outcome in which the descriptor was written in full |
| GetFrames.Decoded | py_ugoira.py:25-32 | the decoder applied to the found group when it is non-empty, and nothing otherwise; see `GetFrames.CaptureAlwaysDecoded` |

## Left out

- HTTP requests, the `Referer` header and the chunked archive download (py_ugoira.py:16-24, 38-50) are I/O. The page text is a parameter and the archive URL is part of the result.
- Zip extraction and deletion of the temporary archive (py_ugoira.py:41, 52-57) are file-system effects and are not modelled.
- `json.loads` is an abstract `decode` parameter. Decoded values other than a false value or an object with a string `src` and frames of a string `file` and an integer `delay` are not modelled. In the source some of them raise (a missing `src` or `frames` raises `KeyError`, a string or `null` delay raises `TypeError`), and some are printed as they are (a numeric `file`). The model's `Json` type has no such value.
- `Ffconcat.Frame`: delays are whole milliseconds below 10^15. For larger, negative or fractional delays Python prints exponent notation or other digits, and these are not modelled.
- `UrlRewrite.Rewrite`: `\d` is modelled as the ASCII digits only. Python's `\d` on `str` also matches other Unicode decimal digits.
- `shlex.split` of the command string and `subprocess.call` (py_ugoira.py:102, 106-109) are not modelled. The model stops at the string and the working directory. Whether either call raises is the `convertSucceeds` parameter of `Cli.Main`. FFmpeg's exit status is ignored by the source too.
- `os.path.abspath` of the frame directory (py_ugoira.py:108) needs the process's current directory, so the directory is kept as given.
- `argparse` itself (py_ugoira.py:119-187) is not modelled: option syntax, `type=int` conversion, `choices`, defaults and `--help`. The model starts from the parsed values.
- `verbose_print` and the other console output (py_ugoira.py:114-116, 214) are not modelled; messages are not part of the model.
- `sys.argv[0]` and `tempfile.gettempdir()` are inputs. The script directory is a parameter of `Cli.Main`, and the temporary archive path is not modelled.
- `Cli.Main`: `os.path.join` is modelled as POSIX `posixpath.join`, and only for the relative directory name it is given here. On Windows `ntpath` joins with `\`.
- `Cli.Main`: the fetch's result is a parameter rather than a call to `GetFrames.GetUgoiraFrames`, since the page comes from the network. The `IndexError` of an empty frame list is treated as a failed fetch there: the run stops with exit status 1 before converting, as the traceback does; only the message differs.
- `Ffconcat.ParseBlocksOf`, `Ffconcat.ParseDescriptorOf`, `Ffconcat.DescriptorShape`, `Ffconcat.DescriptorDurations`, `Ffconcat.LastTwoRecords`: these go through the read-back, which is stated for file names without a newline. The writer prints any name as it is, and a name with a newline would split its record.
- The page URL built from the ID (py_ugoira.py:16) is only used for fetching and is not modelled.
