/** The fallback handler (`handleNotFound`): serve the URI from the card when one is
    mounted, otherwise reply 404 with a diagnostic of the request. */
module NotFound {
  import opened Wrappers
  import opened Text
  import opened Storage
  import opened Http
  import ContentResolver

  const CardMissing := "SDCARD Not Detected\n\n"

  /** Any method other than GET is reported as POST. */
  function MethodName(m: Method): string {
    if m == Get then "GET" else "POST"
  }

  function ArgLine(a: Arg): string {
    " NAME:" + a.name + "\n VALUE:" + a.value + "\n"
  }

  /** One line pair per argument, in index order. */
  function ArgLines(args: seq<Arg>): (lines: string)
    ensures |lines| >= 15 * |args|
    ensures lines == "" <==> |args| == 0
  {
    if |args| == 0 then "" else ArgLines(args[..|args| - 1]) + ArgLine(args[|args| - 1])
  }

  /** Everything before the argument lines: the card banner when no card is mounted,
      then the URI, the method and the argument count in decimal. */
  function Header(hasSD: bool, req: Request): (header: string)
    ensures StartsWith(header, CardMissing) <==> !hasSD
    ensures EndsWith(header, NatToString(|req.args|) + "\n")
  {
    var count := NatToString(|req.args|);
    var front := (if hasSD then "" else CardMissing)
      + "URI: " + req.uri
      + "\nMethod: " + MethodName(req.verb)
      + "\nArguments: ";
    var header := front + count + "\n";
    assert StartsWith(header, CardMissing) <==> !hasSD by {
      if hasSD {
        assert header[0] == 'U';
      } else {
        assert header == CardMissing + (header[|CardMissing|..]);
      }
    }
    Assoc(front, count, "\n");
    EndsWithConcat(front, count + "\n");
    header
  }

  /** The diagnostic text the 404 reply carries. */
  function Diagnostic(hasSD: bool, req: Request): (message: string)
    ensures StartsWith(message, CardMissing) <==> !hasSD
  {
    var m := Header(hasSD, req) + ArgLines(req.args);
    assert StartsWith(m, CardMissing) <==> !hasSD by {
      if hasSD {
        assert m[0] == 'U';
      } else {
        assert m == CardMissing + (m[|CardMissing|..]);
      }
    }
    m
  }

  /** The argument lines for args[..i] and args[i] are followed by those of the rest:
      every argument appears once, in index order. */
  lemma {:induction false} ArgLinesSplit(args: seq<Arg>, i: nat)
    requires i < |args|
    ensures ArgLines(args) == ArgLines(args[..i]) + ArgLine(args[i]) + ArgLines(args[i + 1..])
    decreases |args|
  {
    if i == |args| - 1 {
      assert args[..|args| - 1] == args[..i];
      assert args[i + 1..] == [];
    } else {
      var init := args[..|args| - 1];
      ArgLinesSplit(init, i);
      assert init[..i] == args[..i];
      assert init[i] == args[i];
      var mid := init[i + 1..];
      var last := args[|args| - 1];
      var rest := args[i + 1..];
      assert rest == mid + [last];
      assert rest[..|rest| - 1] == mid;
      assert ArgLines(rest) == ArgLines(mid) + ArgLine(last);
      Assoc(ArgLines(args[..i]) + ArgLine(args[i]), ArgLines(mid), ArgLine(last));
    }
  }

  lemma ArgLinesStep(args: seq<Arg>, i: nat)
    requires i < |args|
    ensures ArgLines(args[..i + 1]) == ArgLines(args[..i]) + ArgLine(args[i])
  {
    assert args[..i + 1][..i] == args[..i];
  }

  /** src/main.cpp:202-215: the message built piece by piece, one argument per pass. */
  method DiagnosticMessage(hasSD: bool, req: Request) returns (message: string)
    ensures message == Diagnostic(hasSD, req)
    ensures StartsWith(message, CardMissing) <==> !hasSD
  {
    message := HeaderMessage(hasSD, req);
    var i := 0;
    while i < |req.args|
      invariant i <= |req.args|
      invariant message == Header(hasSD, req) + ArgLines(req.args[..i])
    {
      ArgLinesStep(req.args, i);
      Assoc(Header(hasSD, req), ArgLines(req.args[..i]), ArgLine(req.args[i]));
      var line := " NAME:" + req.args[i].name + "\n VALUE:" + req.args[i].value + "\n";
      message := message + line;
      i := i + 1;
    }
    assert req.args[..i] == req.args;
  }

  /** The banner, URI, method and count lines, appended one piece at a time. */
  method HeaderMessage(hasSD: bool, req: Request) returns (message: string)
    ensures message == Header(hasSD, req)
  {
    message := "";
    if !hasSD {
      message := CardMissing;
    }
    message := message + "URI: " + req.uri;
    message := message + "\nMethod: " + MethodName(req.verb);
    message := message + "\nArguments: " + NatToString(|req.args|);
    message := message + "\n";
  }

  /** src/main.cpp:198-217: with a card, try static serving first; a missing card or an
      unresolvable path gives 404 with the diagnostic. */
  method HandleNotFound(hasSD: bool, vol: Volume, req: Request) returns (r: Response)
    ensures !hasSD ==> r == Text(404, PlainText, Diagnostic(hasSD, req))
    ensures r.StaticFile? <==> hasSD && ContentResolver.Load(vol, req.uri, req.args).Some?
    ensures r.StaticFile? ==>
      var served := ContentResolver.Load(vol, req.uri, req.args).value;
      r == StaticFile(served.contentType, served.path)
    ensures r.Text? ==> r == Text(404, PlainText, Diagnostic(hasSD, req))
  {
    if hasSD {
      var loaded := ContentResolver.Load(vol, req.uri, req.args);
      if loaded.Some? {
        return StaticFile(loaded.value.contentType, loaded.value.path);
      }
    }
    var message := DiagnosticMessage(hasSD, req);
    r := Text(404, PlainText, message);
  }

  // The loop counter as written.

  type u8 = n: nat | n < 0x100

  /** Passes of `for (uint8_t i = start; i < count; i++)` within `fuel` passes: the number
      of passes when the guard fails in time, None when it still holds after `fuel`. */
  function ByteCounterPasses(i: u8, count: nat, fuel: nat): (passes: Option<nat>)
    ensures passes == Some(0) <==> count <= i
    ensures passes.Some? ==> passes.value <= fuel
    decreases fuel
  {
    if !(i < count) then Some(0)
    else if fuel == 0 then None
    else match ByteCounterPasses(((i + 1) % 0x100) as u8, count, fuel - 1)
      case Some(k) => Some(k + 1)
      case None => None
  }

  /** With 256 or more arguments the 8-bit counter wraps before reaching the count, so
      the argument loop of the diagnostic never ends, however many passes are allowed. */
  lemma {:induction false} ByteCounterNeverExits(i: u8, count: nat, fuel: nat)
    requires 0x100 <= count
    ensures ByteCounterPasses(i, count, fuel) == None
    decreases fuel
  {
    if fuel > 0 {
      ByteCounterNeverExits(((i + 1) % 0x100) as u8, count, fuel - 1);
    }
  }

  /** Below 256 arguments the 8-bit counter behaves: one pass per remaining argument. */
  lemma {:induction false} ByteCounterExits(i: u8, count: nat, fuel: nat)
    requires i <= count < 0x100 && count - i <= fuel
    ensures ByteCounterPasses(i, count, fuel) == Some(count - i)
    decreases count - i
  {
    if i < count {
      ByteCounterExits(i + 1, count, fuel - 1);
    }
  }
}
