/** The `/list` endpoint (`printDirectory`): argument checks, then the directory's
    children as a JSON array, one entry per child in enumeration order. */
module DirectoryListing {
  import opened Wrappers
  import opened Text
  import opened Storage
  import opened Http

  const DirArg := "dir"
  const Root := "/"
  const BadArgs := "BAD ARGS"
  const BadPath := "BAD PATH"
  const NotDir := "NOT DIR"
  const JsonType := "text/json"

  /** src/main.cpp:156-168: the directory to list, or the reason it cannot be listed. The root
      skips the existence check but must still open as a directory. */
  function CheckListingArgs(vol: Volume, args: seq<Arg>): (r: Result<string, string>)
    ensures r.Success? <==> HasArg(args, DirArg) && IsDirectory(vol, ArgValue(args, DirArg))
    ensures r.Success? ==> r.value == ArgValue(args, DirArg)
    ensures r == Failure(BadArgs) <==> !HasArg(args, DirArg)
    ensures r == Failure(BadPath) <==>
      HasArg(args, DirArg) && ArgValue(args, DirArg) != Root && !Exists(vol, ArgValue(args, DirArg))
    ensures r == Failure(NotDir) <==>
      HasArg(args, DirArg) && (ArgValue(args, DirArg) == Root || Exists(vol, ArgValue(args, DirArg)))
      && !IsDirectory(vol, ArgValue(args, DirArg))
  {
    if !HasArg(args, DirArg) then Failure(BadArgs)
    else
      var path := ArgValue(args, DirArg);
      if path != Root && !Exists(vol, path) then Failure(BadPath)
      else if !IsDirectory(vol, path) then Failure(NotDir)
      else Success(path)
  }

  /** A card that never mounted cannot be listed, not even at the root. */
  lemma NoCardCannotBeListed(args: seq<Arg>)
    ensures CheckListingArgs(NoCard, args).Failure?
  {
  }

  const EntryOpen := "{\"type\":\""
  const NameField := "\",\"name\":\""
  const EntryClose := "\"}"

  function KindName(k: Kind): string {
    if k == Directory then "dir" else "file"
  }

  /** One JSON object for one child. The path is copied without escaping. */
  function EntryJson(n: Node): string {
    EntryOpen + KindName(n.kind) + NameField + n.path + EntryClose
  }

  /** The entries separated by commas. */
  function Join(nodes: seq<Node>): string {
    if |nodes| == 0 then ""
    else if |nodes| == 1 then EntryJson(nodes[0])
    else EntryJson(nodes[0]) + "," + Join(nodes[1..])
  }

  /** The whole body: the joined entries in brackets. */
  function ListingJson(nodes: seq<Node>): (listing: string)
    ensures 2 <= |listing| && listing[0] == '[' && listing[|listing| - 1] == ']'
    ensures listing == "[]" <==> |nodes| == 0
  {
    var listing := "[" + Join(nodes) + "]";
    assert 0 < |nodes| ==> listing != "[]" by {
      if 0 < |nodes| {
        JoinStartsWithEntry(nodes);
        assert listing[1] == '{';
      }
    }
    listing
  }

  /** Appending one entry adds a comma exactly when something came before it. */
  lemma {:induction false} JoinSnoc(nodes: seq<Node>, n: Node)
    ensures Join(nodes + [n]) == Join(nodes) + (if |nodes| > 0 then "," else "") + EntryJson(n)
  {
    var last := EntryJson(n);
    if |nodes| == 0 {
      assert nodes + [n] == [n];
    } else {
      var first := EntryJson(nodes[0]);
      var rest := nodes[1..];
      assert (nodes + [n])[0] == nodes[0];
      assert (nodes + [n])[1..] == rest + [n];
      if |rest| == 0 {
        assert rest + [n] == [n];
      } else {
        JoinSnoc(rest, n);
        var others := Join(rest);
        Assoc(first + ",", others + ",", last);
        Assoc(first + ",", others, ",");
      }
    }
  }

  /** src/main.cpp:173-194: "[" , then each child with a comma before all but the first, then "]".
      When no path holds a quote the body reads back as the same children. */
  method StreamListing(nodes: seq<Node>) returns (out: string)
    ensures out == ListingJson(nodes)
    ensures QuoteFree(nodes) ==> ParseListing(out) == Some(nodes)
  {
    out := "[";
    var cnt := 0;
    while cnt < |nodes|
      invariant cnt <= |nodes|
      invariant out == "[" + Join(nodes[..cnt])
    {
      var sep := if cnt > 0 then "," else "";
      var output := sep + EntryJson(nodes[cnt]);
      JoinSnoc(nodes[..cnt], nodes[cnt]);
      assert nodes[..cnt + 1] == nodes[..cnt] + [nodes[cnt]];
      Assoc("[", Join(nodes[..cnt]), output);
      Assoc(Join(nodes[..cnt]), sep, EntryJson(nodes[cnt]));
      out := out + output;
      cnt := cnt + 1;
    }
    assert nodes[..cnt] == nodes;
    out := out + "]";
    if QuoteFree(nodes) {
      ListingRoundTrip(nodes);
    }
  }

  /** src/main.cpp:155-196: a 500 reply with the reason (`returnFail`, src/main.cpp:66-68),
      or a 200 JSON listing of the children. */
  method PrintDirectory(vol: Volume, args: seq<Arg>) returns (r: Response)
    ensures CheckListingArgs(vol, args).Failure? ==>
      r == Text(500, PlainText, CheckListingArgs(vol, args).error + "\r\n")
    ensures CheckListingArgs(vol, args).Success? ==>
      r == Text(200, JsonType, ListingJson(Children(vol, ArgValue(args, DirArg))))
    ensures r.Text? && r.status == 200 && QuoteFree(Children(vol, ArgValue(args, DirArg))) ==>
      ParseListing(r.body) == Some(Children(vol, ArgValue(args, DirArg)))
  {
    match CheckListingArgs(vol, args) {
      case Failure(reason) =>
        r := Text(500, PlainText, reason + "\r\n");
      case Success(path) =>
        var body := StreamListing(Children(vol, path));
        r := Text(200, JsonType, body);
    }
  }

  // Reading a listing back.

  /** FAT names cannot hold a double quote, so no listed path does. */
  predicate QuoteFree(nodes: seq<Node>) {
    forall i :: 0 <= i < |nodes| ==> '"' !in nodes[i].path
  }

  /** Splits at the first double quote: the quote-free prefix and the rest. */
  function TakeName(s: string): (r: (string, string))
    ensures r.0 + r.1 == s
    ensures '"' !in r.0
    ensures |r.1| == 0 || r.1[0] == '"'
  {
    if |s| == 0 || s[0] == '"' then ("", s)
    else
      var (name, rest) := TakeName(s[1..]);
      ([s[0]] + name, rest)
  }

  function ParseKind(s: string): Option<(Kind, string)> {
    if StartsWith(s, "dir" + NameField) then Some((Directory, s[|"dir" + NameField|..]))
    else if StartsWith(s, "file" + NameField) then Some((File, s[|"file" + NameField|..]))
    else None
  }

  /** One entry at the front of `s`, and what follows it. */
  function ParseEntry(s: string): (r: Option<(Node, string)>)
    ensures r.Some? ==> |r.value.1| < |s|
  {
    if !StartsWith(s, EntryOpen) then None
    else match ParseKind(s[|EntryOpen|..])
      case None => None
      case Some((kind, rest)) =>
        var (name, tail) := TakeName(rest);
        if StartsWith(tail, EntryClose) then Some((Node(kind, name), tail[|EntryClose|..]))
        else None
  }

  /** One or more entries separated by commas, then the closing bracket. */
  function ParseItems(s: string): Option<seq<Node>>
    decreases |s|
  {
    match ParseEntry(s)
    case None => None
    case Some((n, rest)) =>
      if rest == "]" then Some([n])
      else if 0 < |rest| && rest[0] == ',' then
        match ParseItems(rest[1..])
        case None => None
        case Some(more) => Some([n] + more)
      else None
  }

  /** A listing body back into its entries, or None when it is not one. */
  function ParseListing(s: string): Option<seq<Node>> {
    if s == "[]" then Some([])
    else if 0 < |s| && s[0] == '[' then ParseItems(s[1..])
    else None
  }

  /** The name ends at the first quote when the name itself holds none. */
  lemma {:induction false} TakeNameOf(name: string, tail: string)
    requires '"' !in name && 0 < |tail| && tail[0] == '"'
    ensures TakeName(name + tail) == (name, tail)
  {
    var s := name + tail;
    if |name| > 0 {
      assert s[0] == name[0];
      assert s[1..] == name[1..] + tail;
      TakeNameOf(name[1..], tail);
      assert [name[0]] + name[1..] == name;
    } else {
      assert s == tail;
    }
  }

  /** What follows a known prefix. */
  lemma DropPrefix(a: string, b: string)
    ensures StartsWith(a + b, a)
    ensures (a + b)[|a|..] == b
  {
    assert (a + b)[..|a|] == a;
  }

  lemma ParseKindOf(k: Kind, after: string)
    ensures ParseKind(KindName(k) + NameField + after) == Some((k, after))
  {
    var field := KindName(k) + NameField;
    DropPrefix(field, after);
    if k == File {
      assert (field + after)[0] == 'f';
    }
  }

  /** An entry followed by `rest`, regrouped field by field. */
  lemma EntryJsonSplit(n: Node, rest: string)
    ensures EntryJson(n) + rest
      == EntryOpen + ((KindName(n.kind) + NameField) + (n.path + (EntryClose + rest)))
  {
  }

  /** An entry written for a quote-free path reads back as that entry. */
  lemma ParseEntryOf(n: Node, rest: string)
    requires '"' !in n.path
    ensures ParseEntry(EntryJson(n) + rest) == Some((n, rest))
  {
    var close := EntryClose + rest;
    var afterKind := n.path + close;
    var afterOpen := (KindName(n.kind) + NameField) + afterKind;
    EntryJsonSplit(n, rest);
    DropPrefix(EntryOpen, afterOpen);
    ParseKindOf(n.kind, afterKind);
    TakeNameOf(n.path, close);
    DropPrefix(EntryClose, rest);
  }

  /** A join of two or more entries, closed, regrouped around its first comma. */
  lemma JoinClosedSplit(nodes: seq<Node>)
    requires 1 < |nodes|
    ensures Join(nodes) + "]" == EntryJson(nodes[0]) + ("," + (Join(nodes[1..]) + "]"))
  {
    var first := EntryJson(nodes[0]);
    var others := Join(nodes[1..]);
    assert Join(nodes) == first + "," + others;
    Assoc(first, ",", others);
    Assoc(first, "," + others, "]");
    Assoc(",", others, "]");
  }

  /** An entry, a comma and a parsable remainder read back as that entry in front. */
  lemma ParseItemsComma(n: Node, after: string)
    requires '"' !in n.path && ParseItems(after).Some?
    ensures ParseItems(EntryJson(n) + ("," + after)) == Some([n] + ParseItems(after).value)
  {
    var tail := "," + after;
    ParseEntryOf(n, tail);
    DropPrefix(",", after);
    assert tail[0] == ',' && tail != "]";
  }

  lemma QuoteFreeTail(nodes: seq<Node>)
    requires 0 < |nodes| && QuoteFree(nodes)
    ensures QuoteFree(nodes[1..])
  {
    var more := nodes[1..];
    forall i | 0 <= i < |more|
      ensures '"' !in more[i].path
    {
      assert more[i] == nodes[i + 1];
    }
  }

  lemma {:induction false} ParseItemsOf(nodes: seq<Node>)
    requires 0 < |nodes| && QuoteFree(nodes)
    ensures ParseItems(Join(nodes) + "]") == Some(nodes)
  {
    if |nodes| == 1 {
      assert Join(nodes) == EntryJson(nodes[0]);
      ParseEntryOf(nodes[0], "]");
      assert [nodes[0]] == nodes;
    } else {
      var more := nodes[1..];
      JoinClosedSplit(nodes);
      QuoteFreeTail(nodes);
      ParseItemsOf(more);
      ParseItemsComma(nodes[0], Join(more) + "]");
      assert [nodes[0]] + more == nodes;
    }
  }

  /** Every listing of quote-free paths reads back as exactly the children listed, so
      its entry count is the number of children enumerated. */
  lemma ListingRoundTrip(nodes: seq<Node>)
    requires QuoteFree(nodes)
    ensures ParseListing(ListingJson(nodes)) == Some(nodes)
  {
    if |nodes| > 0 {
      ParseItemsOf(nodes);
      var joined := Join(nodes);
      Assoc("[", joined, "]");
      DropPrefix("[", joined + "]");
      JoinStartsWithEntry(nodes);
      assert ("[" + joined + "]")[1] == '{';
    }
  }

  /** A non-empty join begins with its first entry's opening brace. */
  lemma JoinStartsWithEntry(nodes: seq<Node>)
    requires 0 < |nodes|
    ensures 0 < |Join(nodes)| && Join(nodes)[0] == '{'
  {
    var first := EntryJson(nodes[0]);
    assert first[0] == '{';
    if |nodes| > 1 {
      assert Join(nodes) == first + "," + Join(nodes[1..]);
      Assoc(first, ",", Join(nodes[1..]));
    }
  }

  /** Listing "/photos" holding the file "a.jpg" and the directory "sub": the two
      objects in enumeration order, separated by one comma. The expected text is
      written in the pieces the handler sends. */
  lemma PhotosListing()
    ensures ListingJson([Node(File, "/photos/a.jpg"), Node(Directory, "/photos/sub")])
      == "[" + ("{\"type\":\"" + "file" + "\",\"name\":\"" + "/photos/a.jpg" + "\"}")
      + "," + ("{\"type\":\"" + "dir" + "\",\"name\":\"" + "/photos/sub" + "\"}") + "]"
  {
    var a := Node(File, "/photos/a.jpg");
    var b := Node(Directory, "/photos/sub");
    var ea := EntryJson(a);
    var eb := EntryJson(b);
    assert [a, b][1..] == [b];
    assert Join([a, b]) == ea + "," + eb;
    Assoc("[", ea + ",", eb);
    Assoc("[", ea, ",");
  }

  /** The same listing reads back as its two entries. */
  lemma PhotosListingReadsBack()
    ensures ParseListing(ListingJson([Node(File, "/photos/a.jpg"), Node(Directory, "/photos/sub")]))
      == Some([Node(File, "/photos/a.jpg"), Node(Directory, "/photos/sub")])
  {
    var nodes := [Node(File, "/photos/a.jpg"), Node(Directory, "/photos/sub")];
    assert '"' !in nodes[0].path;
    assert '"' !in nodes[1].path;
    ListingRoundTrip(nodes);
  }
}
