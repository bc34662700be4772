/**
 * The command prompt of the home window: the string handling applied to a
 * submitted line (JavaScript's `trim` and an ASCII `toLowerCase`), the command
 * table, the decision taken for one command, and the transcript it changes.
 */
module Terminal {
  import opened Wrappers
  import opened Pages

  /** The characters JavaScript's `String.prototype.trim` strips: white space and line terminators. */
  predicate IsJsWhitespace(c: char)
  {
    || c == ' ' || c == '\t' || c == '\n' || c == '\r' || c == '\U{B}' || c == '\U{C}'
    || c == '\U{A0}' || c == '\U{1680}' || ('\U{2000}' <= c <= '\U{200A}')
    || c == '\U{2028}' || c == '\U{2029}' || c == '\U{202F}' || c == '\U{205F}'
    || c == '\U{3000}' || c == '\U{FEFF}'
  }

  /** `s` with its leading white space dropped. */
  function TrimStart(s: string): (r: string)
    ensures |r| <= |s| && r == s[|s| - |r|..]
    ensures forall k :: 0 <= k < |s| - |r| ==> IsJsWhitespace(s[k])
    ensures r != [] ==> !IsJsWhitespace(r[0])
  {
    if s != [] && IsJsWhitespace(s[0]) then TrimStart(s[1..]) else s
  }

  /** `s` with its trailing white space dropped. */
  function TrimEnd(s: string): (r: string)
    ensures |r| <= |s| && r == s[..|r|]
    ensures forall k :: |r| <= k < |s| ==> IsJsWhitespace(s[k])
    ensures r != [] ==> !IsJsWhitespace(r[|r| - 1])
  {
    if s != [] && IsJsWhitespace(s[|s| - 1]) then TrimEnd(s[..|s| - 1]) else s
  }

  /** `r` is `s` with only white space removed before position `i` and after `r`, and `r` has none at its ends. */
  predicate StripsTo(s: string, r: string, i: int)
  {
    0 <= i && i + |r| <= |s| && r == s[i..i + |r|] &&
    (forall k :: 0 <= k < i ==> IsJsWhitespace(s[k])) &&
    (forall k :: i + |r| <= k < |s| ==> IsJsWhitespace(s[k])) &&
    (r != [] ==> !IsJsWhitespace(r[0]) && !IsJsWhitespace(r[|r| - 1]))
  }

  /** `String.prototype.trim`. */
  function Trim(s: string): (r: string)
    ensures exists i :: StripsTo(s, r, i)
  {
    var front := TrimStart(s);
    var r := TrimEnd(front);
    var i := |s| - |front|;
    assert r == s[i..i + |r|] by { assert front == s[i..]; assert r == front[..|r|]; }
    assert forall k :: i + |r| <= k < |s| ==> IsJsWhitespace(s[k]) by {
      forall k | i + |r| <= k < |s| ensures IsJsWhitespace(s[k]) { assert s[k] == front[k - i]; }
    }
    assert StripsTo(s, r, i);
    r
  }

  /** Stripping white space from both ends has exactly one outcome, which is `Trim`'s. */
  lemma StripsToIsTrim(s: string, r: string, i: int)
    requires StripsTo(s, r, i)
    ensures r == Trim(s)
  {
    var j :| StripsTo(s, Trim(s), j);
    var t := Trim(s);
    if r != [] && t != [] {
      assert r[0] == s[i] && t[0] == s[j];
      assert i == j;
      assert r[|r| - 1] == s[i + |r| - 1] && t[|t| - 1] == s[j + |t| - 1];
      assert |r| == |t|;
    }
  }

  /** Trimming a trimmed line changes nothing. */
  lemma TrimIdempotent(s: string)
    ensures Trim(Trim(s)) == Trim(s)
  {
    var t := Trim(s);
    var i :| StripsTo(s, t, i);
    assert StripsTo(t, t, 0);
    StripsToIsTrim(t, t, 0);
  }

  /** `toLowerCase` on one character (ASCII letters only). */
  function LowerChar(c: char): char
  {
    if 'A' <= c <= 'Z' then (c as int - 'A' as int + 'a' as int) as char else c
  }

  /** `toLowerCase` on a string (ASCII letters only). */
  function Lower(s: string): (r: string)
    ensures |r| == |s|
    ensures forall k :: 0 <= k < |s| ==> r[k] == LowerChar(s[k])
  {
    seq(|s|, k requires 0 <= k < |s| => LowerChar(s[k]))
  }

  lemma LowerIdempotent(s: string)
    ensures Lower(Lower(s)) == Lower(s)
  {
  }

  /** The commands the prompt knows; `clear` is answered by erasing rather than printing. */
  const CommandNames: set<string> := {"help", "pwd", "ls", "whoami", "neofetch", "clear"}

  const HelpText: string :=
    "Available commands:\n"
    + "  pwd              - Print working directory\n"
    + "  ls               - List directory contents\n"
    + "  whoami           - Display user information\n"
    + "  neofetch         - Display system information\n"
    + "  clear            - Clear the terminal\n"
    + "  help             - Show this help message"

  const ListingText: string := "blog/\nprojects/\ncontact.txt\nresume.pdf\ndotfiles/"

  const WhoamiText: string :=
    "elliefeng\nLocation: Melbourne, VIC, AU\nStatus: UX Designer & Creative Coder\n"
    + "Interests: Ricing, F1, Keyboards, Design"

  /** The command table's own keys, looked up with `hasOwnProperty`. */
  function Lookup(key: string): (r: Option<Text>)
    ensures r.Some? <==> key in CommandNames
    ensures key == "ls" ==> r == Some(Literal(ListingText))
  {
    match key
    case "help" => Some(Literal(HelpText))
    case "pwd" => Some(Literal("/home/elliefeng"))
    case "ls" => Some(Literal(ListingText))
    case "whoami" => Some(Literal(WhoamiText))
    case "neofetch" => Some(NeofetchArt)
    case "clear" => Some(Literal("CLEAR_TERMINAL"))
    case _ => None
  }

  /** The prompt shown before an echoed command. */
  const Prompt: string := "elliefeng@ellieOS:~$ "

  /** One transcript entry: the echoed command line and the result under it. */
  datatype Line = Line(echo: string, result: Text, isError: bool)

  /** What one submitted command does to the transcript. */
  datatype Response = Silent | ClearScreen | Print(line: Line)

  /**
   * `executeTerminalCommand`'s decision for the trimmed `command`, where `typed` is
   * the input box's untrimmed text, which the echo line shows.
   */
  function Respond(command: string, typed: string): (r: Response)
    ensures r == Silent <==> command == ""
    ensures r == ClearScreen <==> Lower(command) == "clear"
    ensures r.Print? ==> r.line.echo == Prompt + typed
    ensures Lower(command) in CommandNames - {"clear"} ==>
              r == Print(Line(Prompt + typed, Lookup(Lower(command)).value, false))
    ensures command != "" && Lower(command) !in CommandNames ==>
              r == Print(Line(Prompt + typed, Literal("command not found: " + command), true))
  {
    var key := Lower(command);
    if Lookup(key).Some? then
      if key == "clear" then ClearScreen
      else Print(Line(Prompt + typed, Lookup(key).value, false))
    else if command == "" then Silent
    else Print(Line(Prompt + typed, Literal("command not found: " + command), true))
  }

  /** The command is looked up case-insensitively: commands with the same lower case get the same answer. */
  lemma RespondIgnoresCase(a: string, b: string, typed: string)
    requires Lower(a) == Lower(b) && Lower(a) in CommandNames
    ensures Respond(a, typed) == Respond(b, typed)
  {
  }

  /**
   * One block of the terminal element: the typed-out welcome text with its cursor,
   * which is already there when the input box appears, or a command's output.
   */
  datatype Block = Welcome | Output(line: Line)

  /** The prompt's transcript and input box. */
  class Prompter {
    var transcript: seq<Block>
    var input: string

    /** `setupInteractiveTerminal`, run once the welcome text has been typed out: the box starts empty. */
    constructor ()
      ensures transcript == [Welcome] && input == ""
    {
      transcript := [Welcome];
      input := "";
    }

    /** `executeTerminalCommand`: apply the decision for `command` and empty the input box. */
    method Execute(command: string)
      modifies this
      ensures input == ""
      ensures match Respond(command, old(input))
              case Silent => transcript == old(transcript)
              case ClearScreen => transcript == []
              case Print(line) => transcript == old(transcript) + [Output(line)]
    {
      match Respond(command, input) {
        case Silent =>
        case ClearScreen =>
          transcript := [];
        case Print(line) =>
          transcript := transcript + [Output(line)];
      }
      input := "";
    }

    /** Pressing Enter: the trimmed input is the command, the untrimmed input is echoed. */
    method Enter()
      modifies this
      ensures input == ""
      ensures match Respond(Trim(old(input)), old(input))
              case Silent => transcript == old(transcript)
              case ClearScreen => transcript == []
              case Print(line) => transcript == old(transcript) + [Output(line)]
    {
      var command := Trim(input);
      Execute(command);
    }
  }

  /** Enter on ` ls` evaluates `ls`. */
  lemma TrimLeadingSpace()
    ensures Trim(" ls") == "ls"
  {
    assert StripsTo(" ls", "ls", 1);
    StripsToIsTrim(" ls", "ls", 1);
  }

  /**
   * Typing ` ls` and Enter appends the echoed line, spacing kept, with the five-entry
   * listing; typing `CLEAR` then erases the transcript without an echo.
   */
  lemma ListingThenClear()
    ensures Respond("ls", " ls") == Print(Line(Prompt + " ls", Literal(ListingText), false))
    ensures Respond("CLEAR", "CLEAR") == ClearScreen
  {
    assert Lower("ls") == "ls";
    assert Lower("CLEAR") == "clear";
  }
}
