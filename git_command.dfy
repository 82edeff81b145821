/**
 * How `get_git_log` talks to `git`: each command line is one formatted string
 * that `cmd_excute` splits on whitespace into the argument vector, and the
 * boundary tag is the first whitespace-delimited word of the tag listing.
 */
module GitCommand {
  import opened RustStr

  /** The argument vector `cmd_excute` passes to the executable: `args.split_whitespace()`. */
  function Argv(args: string): seq<string> {
    SplitWhitespace(args)
  }

  /** `format!("-C {} checkout {}", path, branch)` */
  function CheckoutArgs(path: string, branch: string): string {
    "-C " + path + " checkout " + branch
  }

  /** `format!("-C {} pull", path)` */
  function PullArgs(path: string): string {
    "-C " + path + " pull"
  }

  /** `format!("-C {} tag --sort=-creatordate", path)` */
  function TagListArgs(path: string): string {
    "-C " + path + " tag --sort=-creatordate"
  }

  /** `format!("-C {} log {}..HEAD", path, tag)` */
  function LogArgs(path: string, tag: string): string {
    "-C " + path + " log " + tag + "..HEAD"
  }

  /**
   * `tags.split_whitespace().next()`: the first word of the output of
   * `git tag --sort=-creatordate`, that is the most recently created tag.
   * `None` stands for the panic of `unwrap` when the output has no word.
   */
  function SelectTag(tags: string): (r: Option<string>)
    ensures r.None? <==> AllWhitespace(tags)
    ensures r.Some? ==> exists p :: FirstRunAt(tags, p, r.value)
  {
    SplitWhitespaceEmpty(tags);
    var words := SplitWhitespace(tags);
    if words == [] then None
    else
      SplitWhitespaceFirst(tags);
      Some(words[0])
  }

  /** The listing of a repository whose newest tag is `v2.0` yields `v2.0`. */
  lemma SelectTagNewestFirst()
    ensures SelectTag("v2.0\nv1.0\n") == Some("v2.0")
  {
    var s := "v2.0\nv1.0\n";
    assert TokenLength(s[4..]) == 0;
    assert TokenLength(s) == 4;
    assert s[..4] == "v2.0";
  }

  /** Two texts joined by a space split into the words of the one followed by those of the other. */
  lemma ArgvJoin(a: string, b: string)
    ensures Argv(a + " " + b) == Argv(a) + Argv(b)
  {
    assert a + " " + b == a + (" " + b);
    SplitWhitespaceAppend(a, " " + b);
    assert (" " + b)[1..] == b;
  }

  /** The shape of every command line here: a word, a text, a word, and possibly a further text. */
  lemma ArgvWordTextWord(w1: string, a: string, w2: string)
    requires IsWord(w1) && IsWord(w2)
    ensures Argv(w1 + " " + a + " " + w2) == [w1] + Argv(a) + [w2]
    ensures IsWord(a) ==> Argv(w1 + " " + a + " " + w2) == [w1, a, w2]
  {
    ArgvJoin(w1 + " " + a, w2);
    ArgvJoin(w1, a);
    SplitWhitespaceWord(w1);
    SplitWhitespaceWord(w2);
    if IsWord(a) {
      SplitWhitespaceWord(a);
    }
  }

  lemma ArgvWordTextWordText(w1: string, a: string, w2: string, b: string)
    requires IsWord(w1) && IsWord(w2)
    ensures Argv(w1 + " " + a + " " + w2 + " " + b) == [w1] + Argv(a) + [w2] + Argv(b)
    ensures IsWord(b) ==> Argv(w1 + " " + a + " " + w2 + " " + b) == [w1] + Argv(a) + [w2, b]
    ensures IsWord(a) && IsWord(b) ==> Argv(w1 + " " + a + " " + w2 + " " + b) == [w1, a, w2, b]
  {
    ArgvJoin(w1 + " " + a + " " + w2, b);
    ArgvWordTextWord(w1, a, w2);
    if IsWord(b) {
      SplitWhitespaceWord(b);
    }
  }

  /**
   * The checkout command splits into `-C`, the words of the path, `checkout`
   * and the words of the branch; exactly `["-C", path, "checkout", branch]`
   * when path and branch are single words.
   */
  lemma CheckoutArgv(path: string, branch: string)
    ensures Argv(CheckoutArgs(path, branch)) == ["-C"] + Argv(path) + ["checkout"] + Argv(branch)
    ensures IsWord(path) && IsWord(branch) ==>
              Argv(CheckoutArgs(path, branch)) == ["-C", path, "checkout", branch]
  {
    assert CheckoutArgs(path, branch) == "-C" + " " + path + " " + "checkout" + " " + branch;
    assert IsWord("-C") && IsWord("checkout");
    ArgvWordTextWordText("-C", path, "checkout", branch);
  }

  /** The pull command splits into `-C`, the words of the path, and `pull`. */
  lemma PullArgv(path: string)
    ensures Argv(PullArgs(path)) == ["-C"] + Argv(path) + ["pull"]
    ensures IsWord(path) ==> Argv(PullArgs(path)) == ["-C", path, "pull"]
  {
    assert PullArgs(path) == "-C" + " " + path + " " + "pull";
    assert IsWord("-C") && IsWord("pull");
    ArgvWordTextWord("-C", path, "pull");
  }

  // The two facts about literals below are kept in lemmas of their own so that
  // `TagListArgv` stays within the resource limit; inlined, they cost it far more.
  lemma SortFlagIsWord()
    ensures IsWord("--sort=-creatordate")
  {
  }

  lemma TagListArgsShape(path: string)
    ensures TagListArgs(path) == "-C" + " " + path + " " + "tag" + " " + "--sort=-creatordate"
  {
  }

  /** The tag listing command splits into `-C`, the words of the path, `tag` and `--sort=-creatordate`. */
  lemma TagListArgv(path: string)
    ensures Argv(TagListArgs(path)) == ["-C"] + Argv(path) + ["tag", "--sort=-creatordate"]
    ensures IsWord(path) ==> Argv(TagListArgs(path)) == ["-C", path, "tag", "--sort=-creatordate"]
  {
    var sort := "--sort=-creatordate";
    TagListArgsShape(path);
    assert IsWord("-C") && IsWord("tag");
    SortFlagIsWord();
    ArgvWordTextWordText("-C", path, "tag", sort);
  }

  /** The log command splits into `-C`, the words of the path, `log` and the words of `<tag>..HEAD`. */
  lemma LogArgv(path: string, tag: string)
    ensures Argv(LogArgs(path, tag)) == ["-C"] + Argv(path) + ["log"] + Argv(tag + "..HEAD")
    ensures IsWord(path) && NoWhitespace(tag) ==>
              Argv(LogArgs(path, tag)) == ["-C", path, "log", tag + "..HEAD"]
  {
    var range := tag + "..HEAD";
    assert LogArgs(path, tag) == "-C" + " " + path + " " + "log" + " " + range;
    assert IsWord("-C") && IsWord("log");
    assert NoWhitespace(tag) ==> IsWord(range) by {
      if NoWhitespace(tag) {
        forall i | 0 <= i < |range| ensures !IsWhitespace(range[i]) {
          if i >= |tag| { assert range[i] == "..HEAD"[i - |tag|]; }
        }
      }
    }
    ArgvWordTextWordText("-C", path, "log", range);
  }

  /**
   * The tag `get_git_log` picks never breaks the log command apart: with a
   * single-word path, the command is exactly `-C path log <tag>..HEAD`.
   */
  lemma SelectedTagLogArgv(path: string, tags: string)
    requires IsWord(path) && SelectTag(tags).Some?
    ensures Argv(LogArgs(path, SelectTag(tags).value)) == ["-C", path, "log", SelectTag(tags).value + "..HEAD"]
  {
    var tag := SelectTag(tags).value;
    var p :| FirstRunAt(tags, p, tag);
    LogArgv(path, tag);
  }

  /**
   * A path holding whitespace can never come out as the one argument it was
   * meant to be: every argument `git` receives is free of whitespace.
   */
  lemma CheckoutArgvBreaksSpacedPath(path: string, branch: string)
    requires !NoWhitespace(path)
    ensures forall a :: a in Argv(CheckoutArgs(path, branch)) ==> IsWord(a)
    ensures |Argv(CheckoutArgs(path, branch))| > 1 ==> Argv(CheckoutArgs(path, branch))[1] != path
    ensures Argv(CheckoutArgs(path, branch)) != ["-C", path, "checkout", branch]
  {
    var argv := Argv(CheckoutArgs(path, branch));
    SplitWhitespaceWords(CheckoutArgs(path, branch));
    assert |argv| > 1 ==> IsWord(argv[1]);
  }
}
