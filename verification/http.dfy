/** The slice of the web server's request and response state the handlers use. */
module Http {

  datatype Method = Get | Head | Post | Put | Patch | Delete | Options

  /** One query or form argument, in the order the server parsed them. */
  datatype Arg = Arg(name: string, value: string)

  datatype Request = Request(uri: string, verb: Method, args: seq<Arg>)

  /** A reply: a text body with a status, or a file streamed from the card with status 200. */
  datatype Response =
    | Text(status: nat, contentType: string, body: string)
    | StaticFile(contentType: string, path: string)

  const PlainText := "text/plain"

  /** `server.hasArg(name)`. */
  predicate HasArg(args: seq<Arg>, name: string) {
    exists i :: 0 <= i < |args| && args[i].name == name
  }

  /** Index of the first argument called `name`, or |args| when there is none. */
  function FirstArg(args: seq<Arg>, name: string): (k: nat)
    ensures k <= |args|
    ensures k < |args| ==> args[k].name == name
    ensures forall j :: 0 <= j < k ==> args[j].name != name
  {
    if |args| == 0 then 0
    else if args[0].name == name then 0
    else 1 + FirstArg(args[1..], name)
  }

  /** `server.arg(name)`: the value of the first argument with that name, or "". */
  function ArgValue(args: seq<Arg>, name: string): (v: string)
    ensures !HasArg(args, name) ==> v == ""
    ensures HasArg(args, name) ==>
      exists i :: 0 <= i < |args| && args[i].name == name && args[i].value == v
        && forall j :: 0 <= j < i ==> args[j].name != name
  {
    var k := FirstArg(args, name);
    if k < |args| then args[k].value else ""
  }
}
