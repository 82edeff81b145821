# git-tools release-log core in Dafny

git-tools is a small command-line tool. It checks out and pulls a configured
branch of a git repository and finds the most recently created tag. It then
asks `git log` for the commits since that tag and cuts the log text into one
chunk per commit. This project models the text processing that tool does and
proves properties of it:

- `rust_str.dfy` (module `RustStr`) defines the parts of Rust's `str` API the
  tool relies on, as functions on `seq<char>`:
  - `char::is_whitespace`, the full Unicode White_Space set;
  - `starts_with`;
  - `lines`, which splits at '\n' and drops one '\r' before a '\n'; a final
    '\n' does not start an extra empty line;
  - `split_whitespace`.

  It also proves the facts the other two modules use.
- `log_split.dfy` (module `LogSplit`) models `log_split`. The loop that pushes
  finished chunks onto a vector and appends each line and "\n" to a buffer is
  written as the method `SplitLog`. It is proved against a ghost cut of the
  input lines into groups, one group per chunk.
- `git_command.dfy` (module `GitCommand`) models:
  - the four `format!` command strings built by `get_git_log`;
  - the argument vector that `cmd_excute` makes from each string with
    `split_whitespace`;
  - the choice of the boundary tag as the first word of the tag listing. A
    `None` result stands for the panic of `unwrap`.

`git log` output and `git tag` output are parameters of the model: the text
that `cmd_excute` returns is taken as given.

## Model

| member | source | states |
|---|---|---|
| LogSplit.SplitLog | src/main.rs:74-89 | The chunks are the texts of a cut of the log's lines into groups. The cut has these properties: (1) there is at least one group; (2) the groups flatten back to the lines in order; (3) only the last group may be empty, and only when there are no lines; (4) every group after the first starts with a line beginning with `commit`; (5) no other line of any group begins with `commit`. There is one chunk more than there are `commit` lines after the first line. Concatenating the chunks gives every line followed by "\n", in order. |
| LogSplit.ChunkTexts | src/main.rs:78-87 | For chunks produced that way: (1) there is at least one chunk; (2) every chunk but the last is non-empty; (3) the last chunk is empty exactly when the log has no lines; (4) the result for a log with no lines is exactly `[""]`; (5) every chunk after the first begins with `commit`; (6) every non-empty chunk ends with '\n'. |
| LogSplit.SplitPointsCount | src/main.rs:78-81 | The count of split points equals the number of positions other than 0 that hold a line beginning with `commit`. A `commit` line at position 0 never splits. |
| RustStr.Lines | src/main.rs:77 | The empty text has no lines, and any other text has at least one. |
| RustStr.LinesHaveNoNewline | src/main.rs:77 | No line yielded by `lines` contains '\n'. |
| RustStr.LinesOfUnlines | src/main.rs:77 | Take lines that have no '\n' and do not end in '\r'. Writing each one followed by "\n" and splitting the result with `lines` gives the same lines back. |
| RustStr.UnlinesOfLines | src/main.rs:77-86 | Take text that is empty or ends in '\n' and has no "\r\n". Splitting it with `lines` and writing each line followed by "\n" gives back exactly that text. |
| LogSplit.ChunksRebuildLog | src/main.rs:77-87 | For such a log, chunks meeting the contract of `SplitLog` concatenate to the log itself. |
| RustStr.UnlinesStartsWithFirst | src/main.rs:84-85 | The text built from a non-empty group of lines begins with its first line and '\n'. |
| RustStr.SplitWhitespaceWords | src/main.rs:96 | Every argument that `split_whitespace` yields is non-empty and contains no whitespace. |
| RustStr.SplitWhitespaceAppend | src/main.rs:96 | Text that is followed by whitespace splits the same way whatever comes after it. The words of `a + b` are the words of `a` followed by the words of `b`. |
| RustStr.SplitWhitespaceWord | src/main.rs:96 | A single word splits into exactly itself. |
| RustStr.SplitWhitespaceEmpty | src/main.rs:64 | `split_whitespace` yields nothing exactly when the text is entirely whitespace. |
| RustStr.SplitWhitespaceFirst | src/main.rs:64 | The first word yielded is the first maximal run of non-whitespace characters. Only whitespace precedes it, and it ends at whitespace or at the end of the text. |
| GitCommand.SelectTag | src/main.rs:64 | The selection fails exactly when the tag listing is empty or all whitespace. Otherwise the selected tag is the first maximal non-whitespace run of the listing, so it is non-empty and contains no whitespace. |
| GitCommand.SelectTagNewestFirst | src/main.rs:61-64 | A listing whose newest tag is `v2.0`, followed by `v1.0`, yields `v2.0`. |
| GitCommand.ArgvJoin | src/main.rs:96 | Joining two texts with a space joins their argument lists. |
| GitCommand.CheckoutArgv | src/main.rs:54-55 | The checkout command splits into `-C`, then the words of the path, then `checkout`, then the words of the branch. It is exactly `["-C", path, "checkout", branch]` when path and branch are single words. |
| GitCommand.PullArgv | src/main.rs:56-57 | The pull command splits into `-C`, then the words of the path, then `pull`. It is exactly `["-C", path, "pull"]` for a single-word path. |
| GitCommand.TagListArgv | src/main.rs:61-62 | The tag listing command splits into `-C`, then the words of the path, then `tag` and `--sort=-creatordate`. It is exactly four arguments for a single-word path. |
| GitCommand.LogArgv | src/main.rs:65-66 | The log command splits into `-C`, then the words of the path, then `log`, then the words of `<tag>..HEAD`. It is exactly `["-C", path, "log", tag + "..HEAD"]` for a single-word path and a tag without whitespace. |
| GitCommand.SelectedTagLogArgv | src/main.rs:64-65 | For any selected tag and a single-word path, the log command is exactly `["-C", path, "log", tag + "..HEAD"]`. The tag taken from the listing never breaks the command apart. |
| GitCommand.CheckoutArgvBreaksSpacedPath | src/main.rs:54-55 | For a path that contains whitespace, every argument `git` receives is a whitespace-free word, the argument after `-C` is never the path, and the vector is never the intended `["-C", path, "checkout", branch]`. |

## Left out

- Running `git`: `Command::new(...).output()`, the ignored exit status and the lossy UTF-8 decoding of its output in `cmd_excute` (src/main.rs:92-101) are operating-system I/O. The output text is an input of the model. The echo of the command line is console output.
- The configuration file: `has_default_toml`, `read_default_toml`, `write_to_file` and `create_default_toml` (src/main.rs:103-199) do file-system I/O and use the `toml`/serde crates.
- The console prompts in `get_git_config` and `get_ai_config`, including the `trim` of what the user types, are interactive I/O.
- `main` and the sequencing inside `get_git_log` (src/main.rs:30-71):
  - the `unwrap`s on the configuration at lines 48-50;
  - the order in which the four commands run;
  - the printing of the log and of the chunks.

  Only the pure pieces are modelled: the command strings, their argument vectors, the tag choice and `log_split`.
- `log_split` of a log with no lines returns `[""]`; src/main.rs treats an empty log no differently from any other.
- `RustStr.Lines` follows `str::lines` as in current Rust. A final line without '\n' keeps a trailing '\r'. Toolchains before Rust 1.77 also dropped that '\r'.
- `LogSplit.SplitLog`: the method's own contract states the cut, the count and the concatenation. The per-chunk textual facts are proved from that contract in `LogSplit.ChunkTexts` and are not repeated in the method's ensures.
- The `String`s and `Vec`s of `log_split` are modelled as Dafny values (`seq`). The buffer reuse that Rust's move of `commit` into the vector implies is not modelled.
