# rtv man page and configuration precedence, in Dafny

This project models two small, self-contained pieces of rtv, a terminal
client for reddit.

**The man-page builder** is `scripts/build_manpage.py`. Its input is the help
text of the command-line parser.

- It cuts the help text into sections at each `"\n\n"`, scanning left to right.
- It takes the synopsis from section 0, with `usage: ` removed and the lines
  stripped and joined by single spaces.
- It takes the description from section 1 as it stands.
- It turns every line of section 2 after its header into a troff `.TP`
  paragraph, with each comma-separated flag set in bold (`\fB`…`\fR`).
- It fills the seven fields of the page template from these and from the
  package metadata.
- It escapes every dash of every field as `\-`.

A help text with fewer than three sections is an error (`IndexError`). So is
an option line with no double space to split at (`ValueError`). Both are
modelled as `ManPage.BuildError`.

**The configuration precedence rule** is in `rtv/__main__.py`.

- Every value read from the configuration file is copied into the parsed
  arguments, but only where that argument reads as `None`.
- The configuration module's `unicode` setting then becomes `not args.ascii`.

The model has four modules:

- `Wrappers`: `Option` and `Result`.
- `PyStr`: the Python `str` operations the builder relies on, over `seq<char>`:
  - `split(sep)` and `split(sep, 1)`;
  - `sep.join`;
  - `replace`;
  - `strip`, `lstrip` and `rstrip`, which cut whitespace as `str.isspace`
    defines it.

  They are written as CPython scans: left to right, leftmost non-overlapping
  matches. Lemmas relate them to one another:
  - `join` undoes `split`;
  - `split` undoes `join` of pieces in which no separator can start, not even one
    that runs on into the next separator;
  - `replace` is `sub.join(s.split(pat))`;
  - `strip` only cuts whitespace.
- `ManPage`: the builder.
  - The options loop and the key-by-key filling of the template dictionary are
    methods (`BuildOptions`, `BuildManPage`).
  - The methods are proved against the specification functions `OptionsOf`,
    `Synopsis`, `EscapeDashes` and `EscapeAll`.
  - The properties the builder promises are lemmas about those functions.
- `ConfigMerge`: the argument namespace is a class holding a
  `map<string, Option<Value>>`.
  - The record holds the namespace's instance attributes. An absent attribute and
    one holding `None` read alike, as `getattr(args, key, None)` does.
  - The fill loop is a method proved against the specification function
    `Merged`.
  - Precedence, filling, untouched keys, idempotence and the `--ascii` switch
    are lemmas about `Merged`.

Some values are inputs to the model because they come from outside the code
modelled here:

- the help text;
- the version, release date, licence and copyright strings;
- the configuration file's values (`local`).

## Model

| member | source | states |
|---|---|---|
| `PyStr.FindSpec` | scripts/build_manpage.py:23 | `PyStr.Find`, the separator search behind `split`, finds the leftmost occurrence, or reports that there is none |
| `PyStr.SplitPieces` | scripts/build_manpage.py:23 | no piece that `PyStr.Split`, `split(sep)`, returns contains the separator |
| `PyStr.JoinSplit` | scripts/build_manpage.py:23 | `PyStr.Join`, joining the pieces of `split(sep)` with `sep`, gives back the original text |
| `PyStr.SplitJoin` | scripts/build_manpage.py:48 | splitting at `sep` the join of at least one piece recovers those pieces, when no separator can start in any piece, not even one that runs on into the next separator |
| `PyStr.SplitOnceParts` | scripts/build_manpage.py:47 | `PyStr.SplitOnce`, `split(sep, 1)`, returns one piece exactly when `sep` does not occur, and then that piece is the input; otherwise it returns the text before the first `sep` and the rest, which rejoin to the input, and the first piece holds no `sep` |
| `PyStr.StripTrims` | scripts/build_manpage.py:46 | `PyStr.Strip`, `strip()`, returns a slice of its input with only whitespace cut from either end, and neither end of the result is whitespace |
| `PyStr.StripSurrounded` | scripts/build_manpage.py:46 | the converse of `StripTrims`: text that neither starts nor ends with whitespace, padded with whitespace on both sides, strips back to exactly that text |
| `PyStr.StripKeepsOut` | scripts/build_manpage.py:32 | a character absent from a line is absent from the stripped line |
| `PyStr.StripIdempotent` | scripts/build_manpage.py:46-47 | stripping an already stripped column changes nothing |
| `PyStr.ReplaceIsJoinSplit` | scripts/build_manpage.py:31 | `PyStr.Replace`, `replace(pat, sub)`, equals `sub.join(s.split(pat))`: every occurrence the left-to-right scan meets is replaced |
| `ManPage.Synopsis` | scripts/build_manpage.py:31-32 | the synopsis, section 0 with `usage: ` removed and its stripped lines joined by spaces, contains no newline |
| `ManPage.WrapFlagsRoundTrip` | scripts/build_manpage.py:48 | `ManPage.WrapFlags` puts each flag in bold and rejoins the flags with `, `; unwrapping gives back the original flag list |
| `ManPage.WrapFlagsExample` | scripts/build_manpage.py:37-42 | the worked example: `-h, --help` becomes `\fB-h\fR, \fB--help\fR` |
| `ManPage.ParseOptionLineFails` | scripts/build_manpage.py:46-47 | `ManPage.ParseOptionLine` rejects an option line, with `MalformedOption` of that line, exactly when its stripped text holds no double space |
| `ManPage.ParseOptionLineColumns` | scripts/build_manpage.py:46-48 | the stripped line splits at its first double space: the stripped text before it gives the bold flags and the stripped text after it gives the description |
| `ManPage.OptionLineShape` | scripts/build_manpage.py:46-48 | a line made of indentation, flags with no double space, a gap starting with two spaces, a description and trailing whitespace parses to the bold flags and the bare description |
| `ManPage.OptionLineExample` | scripts/build_manpage.py:37-42 | the whole worked example: the indented `-h, --help` help line becomes `.TP`, then `\fB-h\fR, \fB--help\fR`, then `show this help message and exit`, then a blank line |
| `ManPage.RenderBlockShape` | scripts/build_manpage.py:49 | `ManPage.RenderBlock` makes each paragraph `".TP\n" + flags + "\n" + description + "\n\n"` |
| `ManPage.HeaderSkipped` | scripts/build_manpage.py:44-45 | the header line of the options section never reaches the options: the lines used are exactly the lines after the first newline |
| `ManPage.OptionsSucceedIff` | scripts/build_manpage.py:45-49 | the options text exists exactly when every option line has a double space |
| `ManPage.OptionsFirstError` | scripts/build_manpage.py:45-47 | when the options fail, the error is `MalformedOption` of the first line without a double space, and every earlier line parsed |
| `ManPage.OptionsText` | scripts/build_manpage.py:43-49 | when every line parses, the options text is the concatenation of one `.TP` paragraph per option line, in order |
| `ManPage.BuildOptions` | scripts/build_manpage.py:43-50 | the loop that grows `options` line by line returns exactly `OptionsOf` of the lines after the header, including its first error |
| `ManPage.EscapeDashes` | scripts/build_manpage.py:56 | escaping lengthens a field by exactly its number of dashes, and replacing `\-` by `-` afterwards gives the field back |
| `ManPage.EscapedDashesFollowBackslash` | scripts/build_manpage.py:56 | after escaping, every dash is preceded by a backslash |
| `ManPage.EscapeAll` | scripts/build_manpage.py:56 | the dictionary comprehension keeps every key and escapes every value, each recoverable and lengthened by its dash count |
| `ManPage.BuildManPage` | scripts/build_manpage.py:21-56 | the page fields exist exactly when the help text has three sections and all its option lines parse. One or two sections give `MissingSection(1)` or `MissingSection(2)`, and a bad option line gives its own error. On success the keys are the seven template fields, each the escaped version, date, synopsis of section 0, section 1 verbatim, options of section 2, licence and copyright |
| `ConfigMerge.Merged` | rtv/__main__.py:73-75 | the merged record has exactly the keys of the arguments plus those of the configuration file |
| `ConfigMerge.MergeFills` | rtv/__main__.py:73-75 | every configuration key whose argument was `None` or absent holds the configuration value afterwards |
| `ConfigMerge.MergeKeepsCommandLine` | rtv/__main__.py:74 | an argument that was not `None` is never overwritten by the configuration file |
| `ConfigMerge.MergeUnrelated` | rtv/__main__.py:73-75 | arguments the configuration file does not name keep their value, and no such key appears |
| `ConfigMerge.MergeIdempotent` | rtv/__main__.py:73-75 | applying the configuration file a second time changes nothing |
| `ConfigMerge.MergeInSteps` | rtv/__main__.py:73-75 | adding one more configuration key to those applied is one conditional `setattr`, whichever key comes next, so the result does not depend on iteration order |
| `ConfigMerge.Namespace.FillFromConfig` | rtv/__main__.py:73-75 | the loop over the configuration items leaves the namespace equal to `Merged` of its old attributes |
| `ConfigMerge.UnicodeFlag` | rtv/__main__.py:77 | `not args.ascii` fails with `AttributeError` exactly when there is no `ascii` attribute |
| `ConfigMerge.AsciiFromCommandLine` | rtv/__main__.py:74-77 | `--ascii` is `store_true` (line 36), so for a parsed command line it is never `None`. A configuration `ascii` value is therefore never applied, and `unicode` is the negation of the command-line switch |
| `ConfigMerge.ApplyConfigFile` | rtv/__main__.py:73-77 | the arguments become `Merged` of the old ones, and the `unicode` setting becomes `not args.ascii`; it is left untouched when that raises |

## Left out

- `ManPage.Synopsis`: it states that no newline remains, not that no `usage: ` remains. Python's `replace` makes one left-to-right pass, so `usausage: ge: ` still holds `usage: ` afterwards.
- `rtv/config.py` is not part of this model. It cannot load as written: `configparser` is never imported and names are used before they are defined. Its only logic is the same fill rule as the entry point, and its other work is file-system probing.
- `local_config` is not bound anywhere in the entry point's `main` as shown. The model takes the configuration file's values as the parameter `local`.
- The configuration file's values are taken as given. Reading the file and converting types are not modelled.
- The model's record holds only the namespace's instance attributes. `getattr(args, key, None)` on an argparse `Namespace` also finds class attributes such as `__init__` or `_get_kwargs`, so the source never fills a configuration key with such a name, while `Merged` does.
- Argument parsing (`argparse`, `parser.format_help()`) is a foreign library. The help text and the parsed namespace are inputs. `ConfigMerge.ParsedCommandLine` records the attributes the parser defines.
- The release date comes from the clock (`datetime.utcnow()`), and the version, licence and copyright from the package. All four are parameters.
- Reading the template, `str.format` templating and writing `rtv.1` are file I/O and foreign formatting, so they are left out. The model ends with the escaped dictionary that `format` receives.
- The progress messages the builder prints are output only, so they are left out.
- The terminal title, logging setup, reddit login, the curses session, the page loops and the printing of exception messages are all left out. They are terminal, network and UI code.
- `str.replace` is modelled only for a non-empty pattern, which is the only kind the builder uses.
- Whitespace for `strip()` is the Python 3 `str.isspace` set. Under Python 2 byte strings only ASCII whitespace would be cut.
- Python dictionary order is not modelled. The template is filled by key, and the fill loop is proved for every iteration order.
