// The deprecated one-word commands of repository automation, rewritten to the generic form.
module XtaskArgs {
  import opened Wrappers

  /** A command-line argument is text, or bytes that are not. */
  datatype Argument = Text(text: string) | Raw(bytes: seq<int>)

  function StripPrefix(s: string, prefix: string): (r: Option<string>)
    ensures r.Some? ==> s == prefix + r.value
  {
    if |prefix| <= |s| && s[..|prefix|] == prefix then Some(s[|prefix|..]) else None
  }

  datatype Rewriting = Keep | Rewrite(subcommand: string, firmware: string)

  function RewritingOf(command: string): Rewriting {
    var build := if command != "build-all" then StripPrefix(command, "build-") else None;
    var run := StripPrefix(command, "run-");
    if build.Some? then Rewrite("build", build.value)
    else if run.Some? then Rewrite("run", run.value)
    else Keep
  }

  function CommandRewriting(args: seq<Argument>): Rewriting {
    if |args| > 1 && args[1].Text? then RewritingOf(args[1].text) else Keep
  }

  function Normalized(args: seq<Argument>): seq<Argument>
  {
    var rewriting := CommandRewriting(args);
    if rewriting.Keep? then args
    else args[..1] + [Text(rewriting.subcommand), Text(rewriting.firmware)] + args[2..]
  }

  method NormalizeLegacyArgs(input: seq<Argument>) returns (args: seq<Argument>, legacy: Option<string>)
    ensures |input| > 1 && input[1].Text? && "build-" <= input[1].text && input[1].text != "build-all" ==>
      args == [input[0], Text("build"), Text(input[1].text[6..])] + input[2..] && legacy == Some(input[1].text)
    ensures |input| > 1 && input[1].Text? && "run-" <= input[1].text ==>
      args == [input[0], Text("run"), Text(input[1].text[4..])] + input[2..] && legacy == Some(input[1].text)
    ensures !(|input| > 1 && input[1].Text? &&
              (("build-" <= input[1].text && input[1].text != "build-all") || "run-" <= input[1].text)) ==>
      args == input && legacy == None
    ensures args == Normalized(input)
    ensures legacy == if CommandRewriting(input).Keep? then None else Some(input[1].text)
  {
    args := input;
    if |args| <= 1 || !args[1].Text? {
      return args, None;
    }
    var command := args[1].text;
    assert "build-"[0] == 'b' && "run-"[0] == 'r';
    var rewriting := RewritingOf(command);
    if rewriting.Keep? {
      return args, None;
    }
    args := args[1 := Text(rewriting.subcommand)];
    args := args[..2] + [Text(rewriting.firmware)] + args[2..];
    legacy := Some(command);
  }

  /** The rewritten command and firmware joined by a hyphen are the old command; nothing else changes. */
  lemma RewritingSplitsCommand(args: seq<Argument>)
    requires CommandRewriting(args).Rewrite?
    ensures var out := Normalized(args);
      && |out| == |args| + 1
      && out[1] == Text(CommandRewriting(args).subcommand) && out[2] == Text(CommandRewriting(args).firmware)
      && out[1].text + "-" + out[2].text == args[1].text
      && out[..1] + out[3..] == args[..1] + args[2..]
  {
    var rewriting := CommandRewriting(args);
    assert "build" + "-" == "build-" && "run" + "-" == "run-";
    assert Normalized(args)[3..] == args[2..];
  }

  /** Rewritten arguments are not rewritten again. */
  lemma RewritingIsIdempotent(args: seq<Argument>)
    ensures Normalized(Normalized(args)) == Normalized(args)
  {
    var rewriting := CommandRewriting(args);
    if rewriting.Rewrite? {
      var out := Normalized(args);
      assert out[1] == Text(rewriting.subcommand);
      assert "build"[..4] == "buil" && "build"[..4][3] == 'l';
      assert RewritingOf(rewriting.subcommand).Keep?;
    }
  }
}
