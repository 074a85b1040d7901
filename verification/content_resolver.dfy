/** Static file serving (`loadFromSdCard`): turns a request path into the path that is
    opened on the card and the content type it is sent with. */
module ContentResolver {
  import opened Wrappers
  import opened Text
  import opened Storage
  import opened Http

  const DefaultType := "text/plain"
  const HtmlType := "text/html"
  const DownloadType := "application/octet-stream"
  /** Appended to a path that ends in "/". */
  const IndexDocument := "index.htm"
  /** Appended to a path that opens as a directory. */
  const DirectoryIndex := "/index.htm"
  /** The "source view" suffix: stripped, and the file is sent as plain text. */
  const SourceSuffix := ".src"
  const DownloadArg := "download"

  datatype Rule = Rule(extension: string, contentType: string)

  /** The extension chain after the `.src` test, in the order it is tried. */
  const TypeTable: seq<Rule> := [
    Rule(".htm", "text/html"),
    Rule(".css", "text/css"),
    Rule(".js", "application/javascript"),
    Rule(".png", "image/png"),
    Rule(".gif", "image/gif"),
    Rule(".jpg", "image/jpeg"),
    Rule(".ico", "image/x-icon"),
    Rule(".xml", "text/xml"),
    Rule(".pdf", "application/pdf"),
    Rule(".zip", "application/zip")
  ]

  /** The adjusted path and the content type it is served with. */
  datatype Resolution = Resolution(path: string, contentType: string)

  /** Index of the first rule whose extension ends `path`, or |rules| when none does. */
  function FirstMatch(path: string, rules: seq<Rule>): (k: nat)
    ensures k <= |rules|
    ensures k < |rules| ==> EndsWith(path, rules[k].extension)
    ensures forall j :: 0 <= j < k ==> !EndsWith(path, rules[j].extension)
  {
    if |rules| == 0 then 0
    else if EndsWith(path, rules[0].extension) then 0
    else 1 + FirstMatch(path, rules[1..])
  }

  /** An extension: a dot followed by characters none of which is a dot. */
  predicate ExtensionShaped(e: string) {
    0 < |e| && e[0] == '.' && forall i :: 0 < i < |e| ==> e[i] != '.'
  }

  /** Where an extension ends a path: a dot, then no dot up to the end. */
  lemma ExtensionDots(path: string, e: string)
    requires ExtensionShaped(e) && EndsWith(path, e)
    ensures path[|path| - |e|] == '.'
    ensures forall k :: |path| - |e| < k < |path| ==> path[k] != '.'
  {
    assert forall k :: |path| - |e| <= k < |path| ==> path[k] == e[k - (|path| - |e|)];
  }

  /** A path ending in two extensions ends in the same one twice. */
  lemma SameExtension(path: string, a: string, b: string)
    requires ExtensionShaped(a) && ExtensionShaped(b)
    requires EndsWith(path, a) && EndsWith(path, b)
    ensures a == b
  {
    ExtensionDots(path, a);
    ExtensionDots(path, b);
  }

  /** Every suffix the resolver tests, `.src` first. */
  function Suffixes(): seq<string> {
    [SourceSuffix] + seq(|TypeTable|, i requires 0 <= i < |TypeTable| => TypeTable[i].extension)
  }

  lemma SuffixesWellFormed()
    ensures forall i :: 0 <= i < |Suffixes()| ==> ExtensionShaped(Suffixes()[i])
    ensures forall i, j :: 0 <= i < j < |Suffixes()| ==> Suffixes()[i] != Suffixes()[j]
  {
  }

  /** No path ends in two of the suffixes the resolver tests, so the order of the
      chain decides nothing: only its single pass does. */
  lemma {:induction false} SuffixesExclusive(path: string, i: nat, j: nat)
    requires i < j < |Suffixes()|
    ensures !(EndsWith(path, Suffixes()[i]) && EndsWith(path, Suffixes()[j]))
  {
    SuffixesWellFormed();
    if EndsWith(path, Suffixes()[i]) && EndsWith(path, Suffixes()[j]) {
      SameExtension(path, Suffixes()[i], Suffixes()[j]);
    }
  }

  /** A path ending in the k-th table extension matches no other suffix. */
  lemma OnlyRuleMatching(path: string, k: nat)
    requires k < |TypeTable| && EndsWith(path, TypeTable[k].extension)
    ensures FirstMatch(path, TypeTable) == k
    ensures !EndsWith(path, SourceSuffix)
    ensures !EndsWith(path, "/")
  {
    FirstMatchOfRule(path, k);
    assert Suffixes()[k + 1] == TypeTable[k].extension;
    SuffixesExclusive(path, 0, k + 1);
    RuleNotSlash(path, k);
  }

  lemma FirstMatchOfRule(path: string, k: nat)
    requires k < |TypeTable| && EndsWith(path, TypeTable[k].extension)
    ensures FirstMatch(path, TypeTable) == k
  {
    var m := FirstMatch(path, TypeTable);
    if m < k {
      assert Suffixes()[m + 1] == TypeTable[m].extension;
      assert Suffixes()[k + 1] == TypeTable[k].extension;
      SuffixesExclusive(path, m + 1, k + 1);
    }
  }

  /** Every table extension ends in a letter, so no path ending in one ends in "/". */
  lemma RuleNotSlash(path: string, k: nat)
    requires k < |TypeTable| && EndsWith(path, TypeTable[k].extension)
    ensures !EndsWith(path, "/")
  {
    var e := TypeTable[k].extension;
    assert forall i :: 0 <= i < |TypeTable| ==>
      |TypeTable[i].extension| == 3 + (if i == 2 then 0 else 1);
    assert forall i :: 0 <= i < |TypeTable| ==>
      TypeTable[i].extension[|TypeTable[i].extension| - 1] != '/';
    assert path[|path| - 1] == e[|e| - 1];
  }

  /** src/main.cpp:71-98: the trailing-slash rule, then the single-pass extension chain.
      `.src` is stripped up to the last dot and the type stays plain text. */
  function Resolve(path: string): (r: Resolution)
    ensures !EndsWith(path, "/") && !EndsWith(path, SourceSuffix) ==> r.path == path
    ensures r.contentType == DefaultType
      || exists k :: 0 <= k < |TypeTable| && r.contentType == TypeTable[k].contentType
  {
    ResolveExtension(WithIndex(path))
  }

  /** src/main.cpp:72-74: a path ending in "/" names its index document. */
  function WithIndex(path: string): string {
    if EndsWith(path, "/") then path + IndexDocument else path
  }

  /** src/main.cpp:76-98 through the table: `.src` first, then the first matching rule. */
  function ResolveExtension(p: string): Resolution {
    if EndsWith(p, SourceSuffix) then
      SourceDot(p);
      Resolution(p[..LastIndexOf(p, '.')], DefaultType)
    else
      var k := FirstMatch(p, TypeTable);
      Resolution(p, if k < |TypeTable| then TypeTable[k].contentType else DefaultType)
  }

  /** The dot that `.src` starts with is the last dot of the path. */
  lemma SourceDot(p: string)
    requires EndsWith(p, SourceSuffix)
    ensures LastIndexOf(p, '.') == |p| - 4
  {
    assert p[|p| - 4..] == ".src";
    assert p[|p| - 4] == '.' && p[|p| - 3] == 's' && p[|p| - 2] == 'r' && p[|p| - 1] == 'c';
  }

  /** The chain as the handler spells it out, one test after another. The `.src` cut is
      written as "drop the last four characters"; `SourceDot` shows that this is where
      `lastIndexOf(".")` cuts. */
  function ResolveAsWritten(path: string): Resolution {
    ChainAsWritten(if EndsWith(path, "/") then path + "index.htm" else path)
  }

  function ChainAsWritten(p: string): Resolution {
    if EndsWith(p, ".src") then Resolution(p[..|p| - 4], "text/plain")
    else if EndsWith(p, ".htm") then Resolution(p, "text/html")
    else if EndsWith(p, ".css") then Resolution(p, "text/css")
    else if EndsWith(p, ".js") then Resolution(p, "application/javascript")
    else if EndsWith(p, ".png") then Resolution(p, "image/png")
    else if EndsWith(p, ".gif") then Resolution(p, "image/gif")
    else if EndsWith(p, ".jpg") then Resolution(p, "image/jpeg")
    else if EndsWith(p, ".ico") then Resolution(p, "image/x-icon")
    else if EndsWith(p, ".xml") then Resolution(p, "text/xml")
    else if EndsWith(p, ".pdf") then Resolution(p, "application/pdf")
    else if EndsWith(p, ".zip") then Resolution(p, "application/zip")
    else Resolution(p, "text/plain")
  }

  /** The declarative table gives the same answer as the written-out chain on every path. */
  lemma TableAgreesWithChain(path: string)
    ensures Resolve(path) == ResolveAsWritten(path)
  {
    TableAgreesOnSuffix(WithIndex(path));
  }

  /** The agreement after the trailing-slash rule, one test of the chain at a time. */
  lemma TableAgreesOnSuffix(p: string)
    ensures ResolveExtension(p) == ChainAsWritten(p)
  {
    if EndsWith(p, ".src") {
      SourceDot(p);
    } else {
      TableAgreesFromHtm(p);
    }
  }

  lemma TableAgreesFromHtm(p: string)
    requires !EndsWith(p, ".src")
    ensures ResolveExtension(p) == ChainAsWritten(p)
  {
    if EndsWith(p, ".htm") {
      RuleBranch(p, 0);
    } else {
      TableAgreesFromCss(p);
    }
  }

  lemma TableAgreesFromCss(p: string)
    requires !EndsWith(p, ".src") && !EndsWith(p, ".htm")
    ensures ResolveExtension(p) == ChainAsWritten(p)
  {
    if EndsWith(p, ".css") {
      RuleBranch(p, 1);
    } else {
      TableAgreesFromJs(p);
    }
  }

  lemma TableAgreesFromJs(p: string)
    requires !EndsWith(p, ".src") && !EndsWith(p, ".htm") && !EndsWith(p, ".css")
    ensures ResolveExtension(p) == ChainAsWritten(p)
  {
    if EndsWith(p, ".js") {
      RuleBranch(p, 2);
    } else {
      TableAgreesFromPng(p);
    }
  }

  lemma TableAgreesFromPng(p: string)
    requires !EndsWith(p, ".src") && !EndsWith(p, ".htm") && !EndsWith(p, ".css") && !EndsWith(p, ".js")
    ensures ResolveExtension(p) == ChainAsWritten(p)
  {
    if EndsWith(p, ".png") {
      RuleBranch(p, 3);
    } else {
      TableAgreesFromGif(p);
    }
  }

  lemma TableAgreesFromGif(p: string)
    requires !EndsWith(p, ".src") && !EndsWith(p, ".htm") && !EndsWith(p, ".css") && !EndsWith(p, ".js")
    requires !EndsWith(p, ".png")
    ensures ResolveExtension(p) == ChainAsWritten(p)
  {
    if EndsWith(p, ".gif") {
      RuleBranch(p, 4);
    } else {
      TableAgreesFromJpg(p);
    }
  }

  lemma TableAgreesFromJpg(p: string)
    requires !EndsWith(p, ".src") && !EndsWith(p, ".htm") && !EndsWith(p, ".css") && !EndsWith(p, ".js")
    requires !EndsWith(p, ".png") && !EndsWith(p, ".gif")
    ensures ResolveExtension(p) == ChainAsWritten(p)
  {
    if EndsWith(p, ".jpg") {
      RuleBranch(p, 5);
    } else {
      TableAgreesFromIco(p);
    }
  }

  lemma TableAgreesFromIco(p: string)
    requires !EndsWith(p, ".src") && !EndsWith(p, ".htm") && !EndsWith(p, ".css") && !EndsWith(p, ".js")
    requires !EndsWith(p, ".png") && !EndsWith(p, ".gif") && !EndsWith(p, ".jpg")
    ensures ResolveExtension(p) == ChainAsWritten(p)
  {
    if EndsWith(p, ".ico") {
      RuleBranch(p, 6);
    } else {
      TableAgreesFromXml(p);
    }
  }

  lemma TableAgreesFromXml(p: string)
    requires !EndsWith(p, ".src") && !EndsWith(p, ".htm") && !EndsWith(p, ".css") && !EndsWith(p, ".js")
    requires !EndsWith(p, ".png") && !EndsWith(p, ".gif") && !EndsWith(p, ".jpg") && !EndsWith(p, ".ico")
    ensures ResolveExtension(p) == ChainAsWritten(p)
  {
    if EndsWith(p, ".xml") {
      RuleBranch(p, 7);
    } else {
      TableAgreesFromPdf(p);
    }
  }

  lemma TableAgreesFromPdf(p: string)
    requires !EndsWith(p, ".src") && !EndsWith(p, ".htm") && !EndsWith(p, ".css") && !EndsWith(p, ".js")
    requires !EndsWith(p, ".png") && !EndsWith(p, ".gif") && !EndsWith(p, ".jpg") && !EndsWith(p, ".ico")
    requires !EndsWith(p, ".xml")
    ensures ResolveExtension(p) == ChainAsWritten(p)
  {
    if EndsWith(p, ".pdf") {
      RuleBranch(p, 8);
    } else {
      TableAgreesFromZip(p);
    }
  }

  lemma TableAgreesFromZip(p: string)
    requires !EndsWith(p, ".src") && !EndsWith(p, ".htm") && !EndsWith(p, ".css") && !EndsWith(p, ".js")
    requires !EndsWith(p, ".png") && !EndsWith(p, ".gif") && !EndsWith(p, ".jpg") && !EndsWith(p, ".ico")
    requires !EndsWith(p, ".xml") && !EndsWith(p, ".pdf")
    ensures ResolveExtension(p) == ChainAsWritten(p)
  {
    if EndsWith(p, ".zip") {
      RuleBranch(p, 9);
    } else {
      NoRuleMatching(p);
    }
  }

  /** A path ending in the k-th table extension takes the k-th type from the table. */
  lemma RuleBranch(p: string, k: nat)
    requires k < |TypeTable| && EndsWith(p, TypeTable[k].extension)
    ensures ResolveExtension(p) == Resolution(p, TypeTable[k].contentType)
  {
    OnlyRuleMatching(p, k);
  }

  /** When none of the ten extensions ends the path, the table has no match. */
  lemma NoRuleMatching(p: string)
    requires !EndsWith(p, ".htm") && !EndsWith(p, ".css") && !EndsWith(p, ".js")
    requires !EndsWith(p, ".png") && !EndsWith(p, ".gif") && !EndsWith(p, ".jpg")
    requires !EndsWith(p, ".ico") && !EndsWith(p, ".xml") && !EndsWith(p, ".pdf")
    requires !EndsWith(p, ".zip")
    ensures FirstMatch(p, TypeTable) == |TypeTable|
  {
    var k := FirstMatch(p, TypeTable);
    assert k < |TypeTable| ==> EndsWith(p, TypeTable[k].extension);
    assert forall j :: 0 <= j < |TypeTable| ==>
      TypeTable[j].extension in {".htm", ".css", ".js", ".png", ".gif", ".jpg", ".ico", ".xml", ".pdf", ".zip"};
  }

  /** A path ending in "/" is served as its index document, as HTML. */
  lemma TrailingSlashServesIndex(path: string)
    requires EndsWith(path, "/")
    ensures Resolve(path) == Resolution(path + IndexDocument, HtmlType)
  {
    var p := path + IndexDocument;
    EndsWithConcat(path, IndexDocument);
    EndsWithTransitive(p, IndexDocument, ".htm");
    OnlyRuleMatching(p, 0);
  }

  /** A path ending in a known extension keeps its path and gets that extension's type. */
  lemma KnownExtension(path: string, k: nat)
    requires k < |TypeTable| && EndsWith(path, TypeTable[k].extension)
    ensures Resolve(path) == Resolution(path, TypeTable[k].contentType)
  {
    OnlyRuleMatching(path, k);
  }

  /** A path with no known extension, no `.src` and no trailing slash is plain text. */
  lemma UnknownExtensionIsPlainText(path: string)
    requires !EndsWith(path, "/") && !EndsWith(path, SourceSuffix)
    requires forall k :: 0 <= k < |TypeTable| ==> !EndsWith(path, TypeTable[k].extension)
    ensures Resolve(path) == Resolution(path, DefaultType)
  {
    assert FirstMatch(path, TypeTable) == |TypeTable|;
  }

  /** `.src` is stripped and the result is plain text, whatever extension is left. */
  lemma SourceViewIsPlainText(path: string)
    requires EndsWith(path, SourceSuffix)
    ensures Resolve(path) == Resolution(path[..|path| - 4], DefaultType)
  {
    assert path[|path| - 1] == 'c';
    SourceDot(path);
  }

  /** The single pass in one example: the unwrapped page is not sent as HTML. */
  lemma SourceViewOfPage()
    ensures Resolve("/index.htm.src") == Resolution("/index.htm", DefaultType)
    ensures Resolve("/index.htm") == Resolution("/index.htm", HtmlType)
  {
    SourceViewIsPlainText("/index.htm.src");
    KnownExtension("/index.htm", 0);
  }

  /** The path the handler finally opens: the resolved path, or its index document
      when the resolved path is a directory (src/main.cpp:100-105). */
  function Target(vol: Volume, path: string): (r: Resolution)
    ensures !EndsWith(path, "/") && !EndsWith(path, SourceSuffix) && IsDirectory(vol, path) ==>
      r == Resolution(path + DirectoryIndex, HtmlType)
    ensures EndsWith(path, "/") ==> r.contentType == HtmlType
  {
    var res := Resolve(path);
    assert EndsWith(path, "/") ==> res.contentType == HtmlType by {
      if EndsWith(path, "/") {
        TrailingSlashServesIndex(path);
      }
    }
    if IsDirectory(vol, res.path) then Resolution(res.path + DirectoryIndex, HtmlType) else res
  }

  /** src/main.cpp:70-113: resolve, fall back to the directory's index, fail when nothing opens,
      and let a `download` argument override the type last. */
  function Load(vol: Volume, path: string, args: seq<Arg>): (r: Option<Resolution>)
    ensures r.Some? ==> Exists(vol, r.value.path)
    ensures !Exists(vol, Resolve(path).path) ==> r == None
    ensures !EndsWith(path, "/") && !EndsWith(path, SourceSuffix) && IsDirectory(vol, path) ==>
      r == (if Exists(vol, path + DirectoryIndex)
            then Some(Resolution(path + DirectoryIndex,
                                 if HasArg(args, DownloadArg) then DownloadType else HtmlType))
            else None)
  {
    var target := Target(vol, path);
    if !Exists(vol, target.path) then None
    else if HasArg(args, DownloadArg) then Some(Resolution(target.path, DownloadType))
    else Some(target)
  }

  /** A directory named without the slash is served exactly like the same name with it. */
  lemma SlashOptionalForDirectories(vol: Volume, path: string, args: seq<Arg>)
    requires !EndsWith(path, "/") && !EndsWith(path, SourceSuffix)
    requires IsDirectory(vol, path) && !IsDirectory(vol, path + DirectoryIndex)
    ensures Load(vol, path, args) == Load(vol, path + "/", args)
    ensures Load(vol, path, args).Some? ==>
      Load(vol, path, args).value.path == path + DirectoryIndex
  {
    EndsWithConcat(path, "/");
    TrailingSlashServesIndex(path + "/");
    assert path + "/" + IndexDocument == path + DirectoryIndex;
  }

  /** A directory "/x.src" holding "index.htm" and nothing else on the card. */
  const SourceNamedDirectory := Volume(map["/x.src" := Directory, "/x.src/index.htm" := File], map[])

  /** A directory whose name ends in ".src" is reachable only with the slash: without it
      the suffix is stripped first and the stripped path does not open. */
  lemma SourceSuffixedDirectory()
    ensures Load(SourceNamedDirectory, "/x.src", []) == None
    ensures Load(SourceNamedDirectory, "/x.src/", []) == Some(Resolution("/x.src/index.htm", HtmlType))
  {
    SourceSuffixedDirectoryBare();
    SourceSuffixedDirectorySlash();
  }

  lemma SourceSuffixedDirectoryBare()
    ensures Load(SourceNamedDirectory, "/x.src", []) == None
  {
    SourceViewIsPlainText("/x.src");
    assert "/x.src"[..|"/x.src"| - 4] == "/x";
    assert Resolve("/x.src").path == "/x";
    assert !Exists(SourceNamedDirectory, "/x");
  }

  lemma SourceSuffixedDirectorySlash()
    ensures Load(SourceNamedDirectory, "/x.src/", []) == Some(Resolution("/x.src/index.htm", HtmlType))
  {
    var index := "/x.src/index.htm";
    assert "/x.src/" + IndexDocument == index;
    assert EndsWith("/x.src/", "/");
    assert index in SourceNamedDirectory.kinds && SourceNamedDirectory.kinds[index] == File;
    SlashServesIndexFile(SourceNamedDirectory, "/x.src/");
  }

  /** A directory "/sub" holding "index.htm" and nothing else on the card. */
  const PlainDirectory := Volume(map["/sub" := Directory, "/sub/index.htm" := File], map[])

  /** Stripping ".src" can land on a directory, whose index is then served as HTML: at the
      handler level a ".src" request is not always plain text. */
  lemma SourceViewOfDirectory()
    ensures Load(PlainDirectory, "/sub.src", []) == Some(Resolution("/sub/index.htm", HtmlType))
  {
    SourceViewIsPlainText("/sub.src");
    assert "/sub.src"[..|"/sub.src"| - 4] == "/sub";
    assert Resolve("/sub.src").path == "/sub";
    assert "/sub" + DirectoryIndex == "/sub/index.htm";
    assert IsDirectory(PlainDirectory, "/sub");
    assert Exists(PlainDirectory, "/sub/index.htm");
    assert !HasArg([], DownloadArg);
  }

  /** A path ending in "/" whose index document is a file is served as that file. */
  lemma SlashServesIndexFile(vol: Volume, path: string)
    requires EndsWith(path, "/")
    requires Exists(vol, path + IndexDocument) && !IsDirectory(vol, path + IndexDocument)
    ensures Load(vol, path, []) == Some(Resolution(path + IndexDocument, HtmlType))
  {
    TrailingSlashServesIndex(path);
  }

  /** The root is served as "/index.htm", as HTML unless a download is asked for. */
  lemma RootServesIndex(vol: Volume, args: seq<Arg>)
    requires Exists(vol, "/index.htm") && !IsDirectory(vol, "/index.htm")
    ensures Load(vol, "/", args) ==
      Some(Resolution("/index.htm", if HasArg(args, DownloadArg) then DownloadType else HtmlType))
  {
    TrailingSlashServesIndex("/");
    assert "/" + IndexDocument == "/index.htm";
  }

  /** The `download` argument changes the content type and nothing else. */
  lemma DownloadChangesOnlyType(vol: Volume, path: string, args: seq<Arg>, args': seq<Arg>)
    requires HasArg(args', DownloadArg)
    ensures Load(vol, path, args).Some? <==> Load(vol, path, args').Some?
    ensures Load(vol, path, args').Some? ==>
      Load(vol, path, args') == Some(Resolution(Load(vol, path, args).value.path, DownloadType))
  {
  }
}
