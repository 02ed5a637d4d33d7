/** The logic of repoclip's src/index.ts: reading the project's .gitignore into a
    list of patterns, building the rule list, dropping ignored files and assembling
    the one document that is put on the clipboard.

    The file system, the glob enumeration and the `ignore` library's matching are
    parameters: `gitignore` is the ignore file's text when it exists, `files` is what
    the glob returned, `matcher(rules, path)` says whether the rules ignore a path,
    and `read(path)` is the file's text, or None when reading it as UTF-8 throws. */
module RepoClip {
  import opened Wrappers
  import opened Seqs
  import opened JsString

  // ---------------------------------------------------------------------------
  // getGitignorePatterns

  /** A line of the ignore file is a pattern when its trimmed form is non-empty and
      the line itself (not its trimmed form) does not start with '#'. */
  predicate KeepLine(line: string) {
    Trim(line) != "" && !StartsWith(line, "#")
  }

  /** The pattern lines of an ignore file's text, in file order and untrimmed. */
  function ParseIgnoreLines(content: string): (r: seq<string>)
    ensures IsSubsequence(r, Split(content, '\n'))
    ensures forall line :: line in r <==> line in Split(content, '\n') && KeepLine(line)
  {
    Filter(Split(content, '\n'), KeepLine)
  }

  /** getGitignorePatterns: no ignore file means no patterns. */
  function GitignorePatterns(gitignore: Option<string>): (r: seq<string>)
    ensures gitignore.None? ==> r == []
    ensures gitignore.Some? ==> r == ParseIgnoreLines(gitignore.value)
  {
    match gitignore
    case None => []
    case Some(content) => ParseIgnoreLines(content)
  }

  /** A line is kept exactly when it has a non-whitespace character and its first
      character is not '#'. */
  lemma KeepLineIff(line: string)
    ensures KeepLine(line) <==>
      (exists i :: 0 <= i < |line| && !IsWhitespace(line[i])) && (line == [] || line[0] != '#')
  {
    TrimEmptyIff(line);
    if line != [] {
      assert StartsWith(line, "#") <==> line[0] == '#' by {
        assert line[..1] == [line[0]];
      }
    }
  }

  /** Every pattern has a non-empty trimmed form, so a line of whitespace only
      is never a pattern, and no pattern starts with '#'. */
  lemma PatternsAreNotBlankOrComments(gitignore: Option<string>, line: string)
    requires line in GitignorePatterns(gitignore)
    ensures exists i :: 0 <= i < |line| && !IsWhitespace(line[i])
    ensures line == [] || line[0] != '#'
    ensures '\n' !in line
  {
    TrimEmptyIff(line);
  }

  /** A line that has a non-whitespace character and does not begin with '#' is kept,
      however much whitespace precedes it: "  #x" is a pattern. */
  lemma {:induction false} ParseKeepsLine(lines: seq<string>, line: string)
    requires forall l :: l in lines ==> '\n' !in l
    requires |lines| >= 1 && line in lines
    requires exists i :: 0 <= i < |line| && !IsWhitespace(line[i])
    requires line == [] || line[0] != '#'
    ensures line in ParseIgnoreLines(Join(lines, '\n'))
  {
    SplitJoin(lines, '\n');
    KeepLineIff(line);
  }

  /** Parsing a text made of lines is filtering those lines. */
  lemma ParseJoin(lines: seq<string>)
    requires |lines| >= 1
    requires forall l :: l in lines ==> '\n' !in l
    ensures ParseIgnoreLines(Join(lines, '\n')) == Filter(lines, KeepLine)
  {
    SplitJoin(lines, '\n');
  }

  // ---------------------------------------------------------------------------
  // The `ignore()` instance that getFilesContent fills

  /** The rules that are always added after the ignore file's patterns. */
  const BuiltIns: seq<string> := [".git", "node_modules"]

  /** The rule set of an `ignore()` instance. Its `.ignores(path)` is `matcher(rules, path)`. */
  class Ignore {
    var rules: seq<string>

    constructor ()
      ensures rules == []
    {
      rules := [];
    }

    /** `.add(patterns)` appends the patterns to the rule set. */
    method Add(patterns: seq<string>)
      modifies this
      ensures rules == old(rules) + patterns
    {
      rules := rules + patterns;
    }
  }

  /** The rule list getFilesContent builds: the ignore file's patterns, then the built-ins. */
  function Rules(gitignore: Option<string>): (r: seq<string>)
    ensures |r| == |GitignorePatterns(gitignore)| + 2
    ensures r[..|r| - 2] == GitignorePatterns(gitignore)
    ensures r[|r| - 2] == ".git" && r[|r| - 1] == "node_modules"
  {
    GitignorePatterns(gitignore) + BuiltIns
  }

  /** The files that survive `files.filter(file => !ig.ignores(file))`. */
  function ValidFiles(rules: seq<string>, files: seq<string>,
                      matcher: (seq<string>, string) -> bool): (r: seq<string>)
  {
    Filter(files, f => !matcher(rules, f))
  }

  /** The surviving files keep their enumeration order, and a file survives exactly
      when it was enumerated and the rules do not ignore it: filtering adds nothing. */
  lemma ValidFilesSelection(rules: seq<string>, files: seq<string>,
                            matcher: (seq<string>, string) -> bool)
    ensures IsSubsequence(ValidFiles(rules, files, matcher), files)
    ensures |ValidFiles(rules, files, matcher)| <= |files|
    ensures forall f :: f in ValidFiles(rules, files, matcher) <==> f in files && !matcher(rules, f)
  {
  }

  // ---------------------------------------------------------------------------
  // The document

  /** The width of the delimiter line. */
  const DelimiterWidth: nat := 60

  /** The line of 60 '=' around every header. */
  const Delimiter: string := Repeat('=', DelimiterWidth)

  /** What one readable file contributes to the document. */
  function Block(path: string, content: string): (r: string)
    ensures |r| == |path| + |content| + 131
    ensures r[0] == '\n' && r[|r| - 1] == '\n'
  {
    "\n" + Delimiter + "\n" + "File: " + path + "\n" + Delimiter + "\n" + content + "\n"
  }

  /** What a file contributes: its block when it reads, nothing when the read fails. */
  function Entry(path: string, read: string -> Option<string>): (r: string)
    ensures r == "" <==> read(path).None?
  {
    match read(path)
    case Some(content) => Block(path, content)
    case None => ""
  }

  /** The document for a list of files: their entries, in list order. */
  function Doc(files: seq<string>, read: string -> Option<string>): (r: string) {
    if files == [] then "" else Entry(files[0], read) + Doc(files[1..], read)
  }

  /** The document of a concatenation is the concatenation of the documents. */
  lemma {:induction false} DocConcat(s: seq<string>, t: seq<string>, read: string -> Option<string>)
    ensures Doc(s + t, read) == Doc(s, read) + Doc(t, read)
  {
    if s == [] {
      assert s + t == t;
    } else {
      var e := Entry(s[0], read);
      assert (s + t)[0] == s[0] && (s + t)[1..] == s[1..] + t;
      DocConcat(s[1..], t, read);
      calc {
        Doc(s + t, read);
        e + Doc(s[1..] + t, read);
        e + (Doc(s[1..], read) + Doc(t, read));
        { ConcatAssoc(e, Doc(s[1..], read), Doc(t, read)); }
        (e + Doc(s[1..], read)) + Doc(t, read);
      }
    }
  }

  /** Appending a file appends its entry: the step of the assembly loop. */
  lemma DocAppend(s: seq<string>, path: string, read: string -> Option<string>)
    ensures Doc(s + [path], read) == Doc(s, read) + Entry(path, read)
  {
    DocConcat(s, [path], read);
  }

  /** A file whose read fails contributes nothing wherever it stands. */
  lemma DocSkipsUnreadable(s: seq<string>, path: string, t: seq<string>,
                           read: string -> Option<string>)
    requires read(path).None?
    ensures Doc(s + [path] + t, read) == Doc(s + t, read)
  {
    DocConcat(s + [path], t, read);
    DocConcat(s, [path], read);
    DocConcat(s, t, read);
  }

  /** The document is the document of its readable files alone. */
  lemma {:induction false} DocOfReadable(s: seq<string>, read: string -> Option<string>)
    ensures Doc(s, read) == Doc(Filter(s, f => read(f).Some?), read)
  {
    if s != [] {
      DocOfReadable(s[1..], read);
    }
  }

  /** The document is empty exactly when no file in the list reads. */
  lemma {:induction false} DocEmptyIff(s: seq<string>, read: string -> Option<string>)
    ensures Doc(s, read) == "" <==> forall f :: f in s ==> read(f).None?
  {
    if s != [] {
      DocEmptyIff(s[1..], read);
      assert forall f :: f in s <==> f == s[0] || f in s[1..];
    }
  }

  /** Appending the pieces of a block one after the other appends the block. */
  lemma BlockAppended(before: string, path: string, content: string)
    ensures before + "\n" + Delimiter + "\n" + "File: " + path + "\n" + Delimiter + "\n" + content + "\n"
         == before + Block(path, content)
  {
    var b1 := "\n" + Delimiter;
    var b2 := b1 + "\n";
    var b3 := b2 + "File: ";
    var b4 := b3 + path;
    var b5 := b4 + "\n";
    var b6 := b5 + Delimiter;
    var b7 := b6 + "\n";
    var b8 := b7 + content;
    ConcatAssoc(before, "\n", Delimiter);
    ConcatAssoc(before, b1, "\n");
    ConcatAssoc(before, b2, "File: ");
    ConcatAssoc(before, b3, path);
    ConcatAssoc(before, b4, "\n");
    ConcatAssoc(before, b5, Delimiter);
    ConcatAssoc(before, b6, "\n");
    ConcatAssoc(before, b7, content);
    ConcatAssoc(before, b8, "\n");
  }

  /** The header of a block: the path starts at offset 68 and a newline follows it. */
  lemma HeaderAt(path: string, content: string, k: nat)
    ensures |Block(path, content)| > 68 + |path|
    ensures Block(path, content)[68 + |path|] == '\n'
    ensures k < |path| ==> Block(path, content)[68 + k] == path[k]
  {
    var prefix := "\n" + Delimiter + "\n" + "File: ";
    assert |prefix| == 68;
    assert Block(path, content) == prefix + path + ("\n" + Delimiter + "\n" + content + "\n");
  }

  /** A block names its file: the path after "File: " runs up to the first newline,
      so a block determines both the path and the content. */
  lemma BlockInjective(p1: string, c1: string, p2: string, c2: string)
    requires '\n' !in p1 && '\n' !in p2
    requires Block(p1, c1) == Block(p2, c2)
    ensures p1 == p2 && c1 == c2
  {
    var b := Block(p1, c1);
    HeaderAt(p1, c1, |p2|);
    HeaderAt(p2, c2, |p1|);
    assert |p1| == |p2|;
    assert b[68..68 + |p1|] == p1;
    assert b[68..68 + |p2|] == p2;
    assert b[130 + |p1|..|b| - 1] == c1;
    assert b[130 + |p2|..|b| - 1] == c2;
  }

  /** The whole result of getFilesContent. */
  function FilesContent(gitignore: Option<string>, files: seq<string>,
                        matcher: (seq<string>, string) -> bool,
                        read: string -> Option<string>): (r: string)
  {
    Doc(ValidFiles(Rules(gitignore), files, matcher), read)
  }

  /** getFilesContent: build the rule set, filter the enumerated files, and append a
      block for every surviving file that can be read, skipping those that cannot. */
  method GetFilesContent(gitignore: Option<string>, files: seq<string>,
                         matcher: (seq<string>, string) -> bool,
                         read: string -> Option<string>) returns (output: string)
    ensures output == FilesContent(gitignore, files, matcher, read)
  {
    var patterns := GitignorePatterns(gitignore);
    var ig := new Ignore();
    ig.Add(patterns);
    assert [] + patterns == patterns;
    ig.Add(BuiltIns);
    var validFiles := ValidFiles(ig.rules, files, matcher);

    output := "";
    for i := 0 to |validFiles|
      invariant output == Doc(validFiles[..i], read)
    {
      var file := validFiles[i];
      assert Doc(validFiles[..i + 1], read) == output + Entry(file, read) by {
        assert validFiles[..i + 1] == validFiles[..i] + [file];
        DocAppend(validFiles[..i], file, read);
      }
      var content := read(file);
      if content.None? {
        continue;
      }
      ghost var before := output;
      output := output + "\n" + Delimiter + "\n";
      output := output + "File: " + file + "\n";
      output := output + Delimiter + "\n";
      output := output + content.value;
      output := output + "\n";
      assert output == before + Entry(file, read) by {
        BlockAppended(before, file, content.value);
      }
    }
    assert validFiles[..|validFiles|] == validFiles;
  }

  // ---------------------------------------------------------------------------
  // main

  /** What main does with the assembled document. */
  datatype Outcome = NothingToCopy | CopyToClipboard(content: string)

  /** main's `if (!content)` test: an empty document is reported as "No files found". */
  function Report(content: string): (o: Outcome)
    ensures o == NothingToCopy <==> content == ""
    ensures o.CopyToClipboard? ==> o.content == content
  {
    if content == "" then NothingToCopy else CopyToClipboard(content)
  }

  /** main reports "No files found to copy" exactly when no file that survives
      the ignore rules can be read. */
  lemma NothingToCopyIff(gitignore: Option<string>, files: seq<string>,
                         matcher: (seq<string>, string) -> bool,
                         read: string -> Option<string>)
    ensures Report(FilesContent(gitignore, files, matcher, read)) == NothingToCopy <==>
      forall f :: f in files && !matcher(Rules(gitignore), f) ==> read(f).None?
  {
    ValidFilesSelection(Rules(gitignore), files, matcher);
    DocEmptyIff(ValidFiles(Rules(gitignore), files, matcher), read);
  }
}
