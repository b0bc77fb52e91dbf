# DistroHub core, modelled in Dafny

DistroHub is a small desktop front-end for `distrobox`. Its logic, stripped of
widgets and process calls, is three things, each modelled here as pure
functions with proved contracts:

- **The container listing parser** (`ListContainersWorker.parse_output`). The
  text printed by `distrobox-list --no-color` is split into lines on `"\n"`,
  the header line is dropped, every later line is split on `" | "`, and every
  piece is stripped of surrounding whitespace. Module `ContainerList`, built on
  `PyStrings`, which gives Python's `str.split`, `str.join`, `str.count`,
  `in` and `str.strip()` exact definitions over `seq<char>`. `strip()` is
  modelled as CPython performs it, a scan from the left and then one from the
  right. Its whitespace set is Python's `str.isspace` set, written out code
  point by code point.
- **Creating a container** (`DistroHub.create_container` and
  `get_container_url`). The placeholder entry "Select Distro" is refused
  before any command is built. Any other entry is looked up in the fixed
  distro-to-image table and turned into the command line
  `distrobox-create --image "<image>" --name "<name>" --nvidia --yes`. The
  text that command prints is then classified by substring matching:
  "already exists" beats "successfully created", which beats failure. Each
  verdict gets its popup. Module `CreateContainer`. The printed text is a
  parameter, because nothing is executed.
- **The singleton metaclass** (`SingletonMeta.__call__`). This is a table from
  class to instance. The first call of a class constructs and stores an
  instance. Every later call returns the stored one and ignores its
  arguments. Module `Singleton`. The constructor is a function parameter.

Module `Wrappers` holds the `Option` datatype.

The contracts pair each operation with an independent partner:

- Split is proved to be the unique leftmost decomposition, to join back to
  its input, and to have `count + 1` pieces.
- Strip is proved equal to every trimmed slice surrounded by whitespace only,
  and to be idempotent.
- The command line has a parser, with round-trip lemmas in both directions.
- Classification has precedence and monotonicity lemmas.
- The singleton table has lemmas over any sequence of calls.

## Model

| member | source | states |
|---|---|---|
| `PyStrings.Contains` | DistroHub.py:108-110 | `sub in s`: the empty string is in every string, and a string only contains substrings no longer than itself; `ContainsIff` characterises it fully |
| `PyStrings.ContainsIff` | DistroHub.py:108-110 | `sub in s` holds exactly when `sub` occurs at some index of `s` |
| `PyStrings.ContainsInSuperstring` | DistroHub.py:108-110 | a text that surrounds a matching part still contains the substring |
| `PyStrings.FindFrom` | DistroHub.py:21 | the search the split uses returns the leftmost occurrence at or after the start, or None when there is none |
| `PyStrings.Split` | DistroHub.py:17-21 | `s.split(sep)` gives at least one piece; it is the string alone exactly when there is one piece; the lemmas below characterise it fully |
| `PyStrings.SplitJoin` | DistroHub.py:21 | joining the pieces of a split with the same separator gives the line back exactly |
| `PyStrings.SplitCount` | DistroHub.py:21 | a split has one piece more than the number of non-overlapping, left-to-right occurrences of the separator |
| `PyStrings.SplitPiecesFree` | DistroHub.py:21 | no piece of a split contains the separator |
| `PyStrings.SplitCutsFirst` | DistroHub.py:21 | every cut a split makes is at the first occurrence of the separator still available |
| `PyStrings.SplitIsLeftmost` | DistroHub.py:21 | a split is a leftmost decomposition: each cut is made at the first occurrence still available, and the last piece has no occurrence |
| `PyStrings.LeftmostIsSplit` | DistroHub.py:21 | every leftmost decomposition of a string equals its split, so the split is determined uniquely |
| `PyStrings.CountZeroIff` | DistroHub.py:17-20 | for any non-empty separator, a string counts zero occurrences of it exactly when it does not contain it; the parser uses it for the line break |
| `PyStrings.IsSpace` | DistroHub.py:22 | the whitespace `strip()` removes: among ASCII characters exactly tab, line feed, vertical tab, form feed, carriage return, the four separators 0x1C to 0x1F, and space; no whitespace lies above U+3000 |
| `PyStrings.SkipSpaceForward` | DistroHub.py:22 | the left scan of `strip()` passes over whitespace only and stops at the first non-space character or the end |
| `PyStrings.SkipSpaceBackward` | DistroHub.py:22 | the right scan of `strip()` passes over whitespace only and stops after the last non-space character, never before where the left scan stopped |
| `PyStrings.Strip` | DistroHub.py:22 | a stripped cell has no whitespace at either end and is no longer than the piece |
| `PyStrings.StripIsSlice` | DistroHub.py:22 | a stripped cell is a slice of the piece with only whitespace around it |
| `PyStrings.StripUnique` | DistroHub.py:22 | any trimmed slice with only whitespace around it is the stripped string |
| `PyStrings.StripIdempotent` | DistroHub.py:22 | stripping a stripped cell changes nothing |
| `ContainerList.Lines` | DistroHub.py:17 | the output has one line more than it has line breaks, and the lines joined with `"\n"` give the output back |
| `ContainerList.StripAll` | DistroHub.py:22 | the comprehension keeps one cell per piece, in order; cell `j` is piece `j` stripped, has no whitespace at either end, and is no longer than the piece |
| `ContainerList.Row` | DistroHub.py:21-22 | a row has one cell more than the line has column separators (so at least one), and no cell has whitespace at either end |
| `ContainerList.RowOfLine` | DistroHub.py:21-22 | cell `j` of a row is piece `j` of the line's leftmost decomposition, stripped; the pieces rejoin to the line and none contains the separator |
| `ContainerList.ParseOutput` | DistroHub.py:16-24 | one row per line after the header, equal to the number of line breaks; no rows exactly when the output has no line break; row `i` comes from line `i+1`; every row has a cell; every cell is trimmed |
| `CreateContainer.ContainerUrl` | DistroHub.py:117-119 | the lookup succeeds exactly for keys of the distro table and then returns that key's image from the table; every real distro has a non-empty image without a double quote |
| `CreateContainer.CommandLine` | DistroHub.py:104 | the command line starts with `distrobox-create --image "`, ends with `" --nvidia --yes`, and is as long as its fixed parts plus the image and the name; the reader lemmas below invert it |
| `CreateContainer.ParseCommandLineRoundTrip` | DistroHub.py:104 | the image and the name can be read back out of the command line for any name, when the image has no double quote |
| `CreateContainer.ParseCommandLineSound` | DistroHub.py:104 | whatever the command-line reader accepts is exactly the command line of the image and name it returns |
| `CreateContainer.ExistsNotice` | DistroHub.py:108 | the notice searched for contains the container's name and the words "already exists." |
| `CreateContainer.Classify` | DistroHub.py:108-115 | the verdict is AlreadyExists exactly when the "already exists" notice for this name appears; Created exactly when it does not but "successfully created" does; Failed exactly when neither does |
| `CreateContainer.ExistsNoticeWins` | DistroHub.py:108-110 | when both the "already exists" notice and "successfully created" are printed, in either order, the verdict is AlreadyExists |
| `CreateContainer.ClassifyExtended` | DistroHub.py:108-115 | extra printed text keeps AlreadyExists as AlreadyExists, and never turns a non-failure into Failed |
| `CreateContainer.Announcement` | DistroHub.py:109-114 | the popup is an error popup exactly for the Failed verdict |
| `CreateContainer.Create` | DistroHub.py:94-119 | "Select Distro" is refused with the "choose a distro" error and no command; a key missing from the table raises; every other key runs a command that reads back as that distro's image and the typed name; the verdict is the classification of the printed text; the popup is informational exactly when the verdict is not Failed |
| `Singleton.GetOrCreate` | DistroHub.py:29-32 | a missing class is inserted with a newly constructed instance that is returned; a present class returns its stored instance and leaves the table unchanged; other entries never change |
| `Singleton.SecondCallReturnsFirst` | DistroHub.py:29-32 | a second call of a class with any arguments returns the first call's instance, constructs nothing and leaves the table unchanged |
| `Singleton.ReplayTable` | DistroHub.py:29-32 | over any sequence of calls, the table gains exactly the classes called, and entries present at the start keep their instance |
| `Singleton.ReplayReturns` | DistroHub.py:29-32 | over any sequence of calls, every call returns the instance the final table holds for its class |
| `Singleton.ReplayConstructsOnce` | DistroHub.py:29-32 | over any sequence of calls, the number of constructions equals the number of entries the table gained |
| `Singleton.ReplayConstructsPerNewClass` | DistroHub.py:29-32 | over any sequence of calls, the constructor runs exactly once for each called class that was not in the table at the start |

## Left out

- `ListContainersWorker.run` (DistroHub.py:9-14) is left out. It is an endless polling loop on a Qt thread that runs a process and emits a signal. The model takes the listing text as the parser's input.
- `subprocess.getoutput` and `print` (DistroHub.py:12, 105, 107, 112, 115) are left out because they are process I/O. The text the create command prints is a parameter of `CreateContainer.Create`, and the model does not relate that text to the command line.
- How a shell interprets the command line is left out, including quoting and injection through the container name. Only the string's format is modelled.
- All Qt widgets, layouts, popups, dialogs and table rendering (DistroHub.py:34-93, 121-178) are left out. This includes `update_list_containers` and `ListContainersPopup.update_table`, which are a Qt object lookup and a table fill. The popups are modelled only as their kind and text.
- The `__main__` block (DistroHub.py:180-184) is left out.
- `subprocess.getoutput` removes one trailing newline before the parser sees the text. That step is outside the model. The parser itself turns a trailing line break into a final row with one empty cell, and the model does the same.
- `PyStrings.Split` requires a non-empty separator. Python raises `ValueError` on an empty one, but the program only splits on the constants `"\n"` and `" | "`.
- `Singleton.GetOrCreate` treats construction as a pure function of the arguments, so it does not model object identity, `super().__call__` or a constructor that raises. The lemmas only rely on the constructor running at most once per class.
- The listing's six columns (ID, NAME, STATUS, MEM, CPU%, IMAGE) are not enforced. The parser accepts any number of cells per line, and so does the model.
