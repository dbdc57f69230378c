/** The command loop of `analyze_mode`: each input line is stripped, split once
    on whitespace and dispatched on its first word; `leaderboard_length` is the
    one piece of state the loop keeps between lines. */
module Commands {
  import opened Wrappers
  import opened Text
  import opened Numbers

  /** The longest run of non-whitespace characters at the start of `s`. */
  function Word(s: string): (r: string)
    ensures |r| <= |s| && r == s[..|r|]
    ensures forall i :: 0 <= i < |r| ==> r[i] !in Whitespace
    ensures |r| == |s| || s[|r|] in Whitespace
    decreases |s|
  {
    if |s| > 0 && s[0] !in Whitespace then [s[0]] + Word(s[1..]) else []
  }

  /** `s.split(maxsplit=1)`: the first whitespace-separated word and, when more
      text follows, everything after the whitespace that ends the word. */
  function SplitOnce(s: string): (r: seq<string>)
    ensures |r| <= 2
    ensures r == [] <==> forall i :: 0 <= i < |s| ==> s[i] in Whitespace
    ensures |r| > 0 ==> r[0] != [] && forall i :: 0 <= i < |r[0]| ==> r[0][i] !in Whitespace
    ensures |r| > 1 ==> r[1] != [] && r[1][0] !in Whitespace
  {
    var t := StripLeft(s, Whitespace);
    if t == [] then []
    else
      assert s[|s| - |t|] == t[0];
      var w := Word(t);
      assert |w| > 0 && w[0] == t[0];
      var rest := StripLeft(t[|w|..], Whitespace);
      if rest == [] then [w] else [w, rest]
  }

  /** A word followed by something that cannot continue it is read whole. */
  lemma {:induction false} WordOf(w: string, x: string)
    requires forall i :: 0 <= i < |w| ==> w[i] !in Whitespace
    requires x == [] || x[0] in Whitespace
    ensures Word(w + x) == w
    decreases |w|
  {
    if w != [] {
      assert (w + x)[1..] == w[1..] + x;
      WordOf(w[1..], x);
    }
  }

  /** The split of a text that starts with its first word, from the word and
      what is left once the whitespace after it is stripped. */
  lemma SplitOnceOf(s: string, w: string, rest: string)
    requires s != [] && StripLeft(s, Whitespace) == s
    requires Word(s) == w && StripLeft(s[|w|..], Whitespace) == rest
    ensures SplitOnce(s) == if rest == [] then [w] else [w, rest]
  {
  }

  /** Splitting a word, a whitespace gap and a text that starts with a
      non-whitespace character gives back the word and the text: the split
      undoes the joining. */
  lemma SplitWordRest(w: string, gap: string, rest: string)
    requires w != [] && forall i :: 0 <= i < |w| ==> w[i] !in Whitespace
    requires forall i :: 0 <= i < |gap| ==> gap[i] in Whitespace
    requires rest == [] || (gap != [] && rest[0] !in Whitespace)
    ensures SplitOnce(w + gap + rest) == if rest == [] then [w] else [w, rest]
  {
    var s := w + gap + rest;
    assert s == [] + s;
    StripLeftAround([], s, Whitespace);
    AppendAssoc(w, gap, rest);
    WordOf(w, gap + rest);
    assert s[|w|..] == gap + rest;
    StripLeftAround(gap, rest, Whitespace);
    SplitOnceOf(s, w, rest);
  }

  /** The characters `strip('"\'')` removes. */
  const Quotes: set<char> := {'"', '\''}

  /** What a line asks for, once read. */
  datatype Command =
    | Blank                                          // nothing but whitespace: prompt again
    | NotSlash                                       // does not start with '/'
    | Top(n: int)                                    // `/top <n>`
    | TopInvalid                                     // `/top` whose argument `int()` rejects
    | From(institution: string)                      // `/from <institution>`, quotes stripped
    | FromMissing                                    // `/from` alone
    | GetContacts(k: int, named: Option<string>)     // `/getcontacts <k> [institution]`
    | GetContactsInvalid                             // `/getcontacts` without a readable `k`
    | Show
    | Help
    | Exit
    | Clear
    | Unknown(name: string)                          // any other word after '/'

  /** `/top <n>`: the argument must be an integer for `int()`. */
  function ParseTop(arg: string): (c: Command)
    ensures c.Top? || c == TopInvalid
  {
    match ParseInt(arg)
    case Some(n) => Top(n)
    case None => TopInvalid
  }

  /** `/from <institution>`: the argument, with surrounding quotes removed. */
  function ParseFrom(arg: string): (c: Command)
    ensures c.From? || c == FromMissing
  {
    if arg == "" then FromMissing else From(Strip(arg, Quotes))
  }

  /** `/getcontacts <k> [institution]`: the argument split once more; `k` must
      be there (else `IndexError`) and be an integer (else `ValueError`). */
  function ParseGetContacts(arg: string): (c: Command)
    ensures c.GetContacts? || c == GetContactsInvalid
  {
    var words := SplitOnce(arg);
    if words == [] then GetContactsInvalid
    else
      match ParseInt(words[0])
      case None => GetContactsInvalid
      case Some(k) => GetContacts(k, if |words| > 1 then Some(Strip(words[1], Quotes)) else None)
  }

  /** The choice on the first word, exactly as written and case-sensitively. */
  function Dispatch(cmd: string, arg: string): Command {
    if cmd == "/top" then ParseTop(arg)
    else if cmd == "/from" then ParseFrom(arg)
    else if cmd == "/getcontacts" then ParseGetContacts(arg)
    else if cmd == "/show" then Show
    else if cmd == "/help" then Help
    else if cmd == "/exit" then Exit
    else if cmd == "/clear" then Clear
    else Unknown(cmd)
  }

  /** One input line: stripped, then split once into the command word and its
      argument (empty when there is none). */
  function ParseCommand(line: string): Command {
    var command := Strip(line, Whitespace);
    if command == [] then Blank
    else if command[0] != '/' then NotSlash
    else
      var parts := SplitOnce(command);
      Dispatch(parts[0], if |parts| > 1 then parts[1] else "")
  }

  /** What `input()` gives the loop: a line, end of input (`EOFError`), or
      Ctrl-C (`KeyboardInterrupt`). */
  datatype Input = Line(text: string) | EndOfInput | Interrupt

  /** An input as the loop body sees it: the command a line reads as, the
      error `input()` raised at end of input, or the interrupt. */
  datatype Event = Entered(command: Command) | ReadFailed | Interrupted

  function Read(input: Input): Event {
    match input
    case Line(text) => Entered(ParseCommand(text))
    case EndOfInput => ReadFailed
    case Interrupt => Interrupted
  }

  /** The events of a run, one per input. */
  function Reads(inputs: seq<Input>): (r: seq<Event>)
    ensures |r| == |inputs|
    ensures forall i :: 0 <= i < |inputs| ==> r[i] == Read(inputs[i])
  {
    seq(|inputs|, i requires 0 <= i < |inputs| => Read(inputs[i]))
  }

  /** What the loop does with one event. */
  datatype Action =
    | Nothing                                        // a blank line
    | Leaderboards(length: int)                      // `show_leaderboards(df, length)`
    | AuthorsFrom(institution: string, length: int)  // `show_authors_from(df, institution, length)`
    | Contacts(count: int, filter: Option<string>)    // `get_contacts` for the top `count`; None: all rows
    | HelpText
    | ClearScreen
    | Rejected(command: Command)                     // the usage or "unknown command" message
    | ErrorReported                                  // "An error occurred", the loop goes on
    | Quit

  /** What the loop does with a line that reads as `command` while the
      leaderboard length is `length`; `/top` shows the leaderboards at its new
      length, and an empty institution after `/getcontacts` filters nothing. */
  function Respond(length: int, command: Command): Action {
    match command
    case Blank => Nothing
    case Top(n) => Leaderboards(n)
    case From(institution) => AuthorsFrom(institution, length)
    case GetContacts(k, institution) =>
      Contacts(k, if institution.Some? && institution.value != "" then institution else None)
    case Show => Leaderboards(length)
    case Help => HelpText
    case Exit => Quit
    case Clear => ClearScreen
    case other => Rejected(other)
  }

  /** The action for one event while the leaderboard length is `length`. */
  function ActionFor(length: int, event: Event): Action {
    match event
    case Entered(command) => Respond(length, command)
    case ReadFailed => ErrorReported
    case Interrupted => Quit
  }

  /** `leaderboard_length` after one event. */
  function NextLength(length: int, event: Event): int {
    if event.Entered? && event.command.Top? then event.command.n else length
  }

  /** `leaderboard_length` after the events, one after another. */
  function LengthAfter(length: int, events: seq<Event>): int
    decreases |events|
  {
    if events == [] then length
    else NextLength(LengthAfter(length, events[..|events| - 1]), events[|events| - 1])
  }

  /** The actions the loop takes for the events, up to and including the one
      that ends it. */
  function Actions(length: int, events: seq<Event>): (r: seq<Action>)
    ensures |r| <= |events|
    decreases |events|
  {
    if events == [] then []
    else
      var action := ActionFor(length, events[0]);
      if action == Quit then [action]
      else [action] + Actions(NextLength(length, events[0]), events[1..])
  }

  /** An event that ends the loop: the interrupt or `/exit`. End of input is
      not one: its `EOFError` is caught like any other error. */
  predicate Ends(event: Event) {
    event == Interrupted || event == Entered(Exit)
  }

  /** `Actions` from position `i` on, one event unfolded. */
  lemma ActionsAt(length: int, events: seq<Event>, i: nat)
    requires i < |events|
    ensures Actions(length, events[i..]) ==
              if ActionFor(length, events[i]) == Quit then [Quit]
              else [ActionFor(length, events[i])] + Actions(NextLength(length, events[i]), events[i + 1..])
  {
    assert events[i..][0] == events[i] && events[i..][1..] == events[i + 1..];
  }

  /** `LengthAfter` one event further. */
  lemma LengthAfterAt(length: int, events: seq<Event>, i: nat)
    requires i < |events|
    ensures LengthAfter(length, events[..i + 1]) == NextLength(LengthAfter(length, events[..i]), events[i])
  {
    assert events[..i + 1][..i] == events[..i];
  }

  /** The loop of `analyze_mode`, holding `leaderboard_length`. */
  class Session {
    var leaderboardLength: int

    constructor ()
      ensures leaderboardLength == 10
    {
      leaderboardLength := 10;
    }

    /** One pass of the loop body for one input. */
    method Step(input: Input) returns (action: Action)
      modifies this
      ensures action == ActionFor(old(leaderboardLength), Read(input))
      ensures leaderboardLength == NextLength(old(leaderboardLength), Read(input))
    {
      match input {
        case Interrupt =>
          action := Quit;
        case EndOfInput =>
          action := ErrorReported;
        case Line(text) =>
          var command := ParseCommand(text);
          action := Respond(leaderboardLength, command);
          if command.Top? {
            leaderboardLength := command.n;
          }
      }
    }

    /** `while True`: inputs are handled in order until one ends the loop. */
    method Run(inputs: seq<Input>) returns (actions: seq<Action>)
      modifies this
      ensures actions == Actions(old(leaderboardLength), Reads(inputs))
      ensures leaderboardLength == LengthAfter(old(leaderboardLength), Reads(inputs)[..|actions|])
    {
      ghost var start := leaderboardLength;
      ghost var events := Reads(inputs);
      actions := [];
      var i := 0;
      var quit := false;
      while i < |inputs| && !quit
        invariant 0 <= i <= |inputs| && |actions| == i
        invariant leaderboardLength == LengthAfter(start, events[..i])
        invariant quit ==> actions == Actions(start, events)
        invariant !quit ==> actions + Actions(leaderboardLength, events[i..]) == Actions(start, events)
      {
        ghost var done := actions;
        ghost var before := leaderboardLength;
        ActionsAt(before, events, i);
        LengthAfterAt(start, events, i);
        var action := Step(inputs[i]);
        actions := actions + [action];
        if action.Quit? {
          quit := true;
          assert actions == done + Actions(before, events[i..]);
        } else {
          ghost var later := Actions(leaderboardLength, events[i + 1..]);
          AppendAssoc(done, [action], later);
        }
        i := i + 1;
      }
      if !quit {
        assert events[i..] == [];
        AppendEmpty(actions);
      }
    }
  }

  /** Trailing whitespace does not change the first word. */
  lemma WordIgnoresTrailing(s: string)
    ensures Word(StripRight(s, Whitespace)) == Word(s)
  {
    var c := StripRight(s, Whitespace);
    var w := Word(s);
    assert forall i :: 0 <= i < |w| ==> s[i] !in Whitespace;
    if |c| < |s| {
      assert s[|c|] in Whitespace;
    }
    assert |w| <= |c|;
    assert c == w + s[|w|..|c|];
    WordOf(w, s[|w|..|c|]);
  }

  /** Only the word `/exit` ends the loop, whatever its argument. */
  lemma DispatchExit(cmd: string, arg: string)
    ensures Dispatch(cmd, arg) == Exit <==> cmd == "/exit"
  {
  }

  /** A text that starts with a word splits first into that word. */
  lemma SplitOnceFirst(s: string)
    requires s != [] && s[0] !in Whitespace
    ensures SplitOnce(s) != [] && SplitOnce(s)[0] == Word(s)
  {
    StripLeftAround([], s, Whitespace);
    assert [] + s == s;
  }

  /** A line is `/exit` exactly when the first word of its stripped text is. */
  lemma ExitIffStrippedWord(line: string)
    ensures ParseCommand(line) == Exit <==> Word(Strip(line, Whitespace)) == "/exit"
  {
    var command := Strip(line, Whitespace);
    var w := Word(command);
    if command == [] {
      assert ParseCommand(line) == Blank;
      assert w == [];
    } else {
      SplitOnceFirst(command);
      var parts := SplitOnce(command);
      assert w == [] || w[0] == command[0];
      if command[0] != '/' {
        assert ParseCommand(line) == NotSlash;
      } else {
        var arg := if |parts| > 1 then parts[1] else "";
        assert ParseCommand(line) == Dispatch(w, arg);
        DispatchExit(w, arg);
      }
    }
  }

  /** A line is `/exit` exactly when its first word is. */
  lemma ExitIffFirstWord(line: string)
    ensures ParseCommand(line) == Exit <==> Word(StripLeft(line, Whitespace)) == "/exit"
  {
    ExitIffStrippedWord(line);
    WordIgnoresTrailing(StripLeft(line, Whitespace));
  }

  /** The loop stops on exactly the events `Ends` names. */
  lemma QuitIffEnds(length: int, event: Event)
    ensures ActionFor(length, event) == Quit <==> Ends(event)
  {
  }

  /** A line ends the loop exactly when its first word is `/exit`, whatever
      follows it. */
  lemma LineEnds(line: string)
    ensures Ends(Read(Line(line))) <==> Word(StripLeft(line, Whitespace)) == "/exit"
  {
    ExitIffFirstWord(line);
  }

  /** End of input never ends the loop. */
  lemma EndOfInputGoesOn()
    ensures !Ends(Read(EndOfInput))
  {
  }

  /** A command word, a whitespace gap and an argument with no whitespace at
      its ends are read back as that word and that argument. */
  lemma ParsesAs(word: string, gap: string, arg: string)
    requires word != [] && word[0] == '/' && forall i :: 0 <= i < |word| ==> word[i] !in Whitespace
    requires gap != [] && forall i :: 0 <= i < |gap| ==> gap[i] in Whitespace
    requires arg != [] && arg[0] !in Whitespace && arg[|arg| - 1] !in Whitespace
    ensures ParseCommand(word + gap + arg) == Dispatch(word, arg)
  {
    var line := word + gap + arg;
    assert line[0] == word[0] && line[|line| - 1] == arg[|arg| - 1];
    StripNothing(line, Whitespace);
    SplitWordRest(word, gap, arg);
  }

  /** A command word on its own has an empty argument. */
  lemma ParsesAlone(word: string)
    requires word != [] && word[0] == '/' && forall i :: 0 <= i < |word| ==> word[i] !in Whitespace
    ensures ParseCommand(word) == Dispatch(word, "")
  {
    StripNothing(word, Whitespace);
    SplitWordAlone(word);
  }

  /** The words the loop knows select their own parser. */
  lemma DispatchKnown(arg: string)
    ensures Dispatch("/top", arg) == ParseTop(arg)
    ensures Dispatch("/from", arg) == ParseFrom(arg)
    ensures Dispatch("/getcontacts", arg) == ParseGetContacts(arg)
  {
  }

  /** A single word splits into itself. */
  lemma SplitWordAlone(w: string)
    requires w != [] && forall i :: 0 <= i < |w| ==> w[i] !in Whitespace
    ensures SplitOnce(w) == [w]
  {
    SplitWordRest(w, [], []);
    AppendEmpty(w);
  }

  /** A `/top` argument that `int()` reads sets the length. */
  lemma TopArgument(n: int)
    ensures ParseTop(FormatInt(n)) == Top(n)
  {
    ReadsFormatted(n);
  }

  /** `/top <n>` sets the length to `n`, negative or not. */
  lemma TopLine(gap: string, n: int)
    requires gap != [] && forall i :: 0 <= i < |gap| ==> gap[i] in Whitespace
    ensures ParseCommand("/top" + gap + FormatInt(n)) == Top(n)
  {
    VisibleNotSpace("/top");
    FormatIntEnds(n);
    ParsesAs("/top", gap, FormatInt(n));
    DispatchKnown(FormatInt(n));
    TopArgument(n);
  }

  /** `/top` without a number is rejected: `int("")` raises. */
  lemma TopAlone()
    ensures ParseCommand("/top") == TopInvalid
  {
    VisibleNotSpace("/top");
    ParsesAlone("/top");
    DispatchKnown("");
  }

  /** `/from` without an institution is rejected. */
  lemma FromAlone()
    ensures ParseCommand("/from") == FromMissing
  {
    VisibleNotSpace("/from");
    ParsesAlone("/from");
    DispatchKnown("");
  }

  /** A quoted name is looked up without its quotes. */
  lemma FromQuotedArgument(name: string)
    requires name != [] && name[0] !in Quotes && name[|name| - 1] !in Quotes
    ensures ParseFrom("\"" + name + "\"") == From(name)
  {
    StripAround("\"", name, "\"", Quotes);
  }

  /** `/from "<name>"` looks the name up without its quotes. */
  lemma FromQuoted(gap: string, name: string)
    requires gap != [] && forall i :: 0 <= i < |gap| ==> gap[i] in Whitespace
    requires name != [] && name[0] !in Quotes && name[|name| - 1] !in Quotes
    ensures ParseCommand("/from" + gap + ("\"" + name + "\"")) == From(name)
  {
    var arg := "\"" + name + "\"";
    VisibleNotSpace("/from");
    assert arg[0] == '"' && arg[|arg| - 1] == '"';
    ParsesAs("/from", gap, arg);
    DispatchKnown(arg);
    FromQuotedArgument(name);
  }

  /** `/getcontacts` without a count is rejected (`parts[0]` raises
      `IndexError`). */
  lemma GetContactsAlone()
    ensures ParseCommand("/getcontacts") == GetContactsInvalid
  {
    VisibleNotSpace("/getcontacts");
    ParsesAlone("/getcontacts");
    DispatchKnown("");
    assert SplitOnce("") == [];
  }

  /** The argument `<k>` alone: no institution. */
  lemma CountOnly(k: int)
    ensures ParseGetContacts(FormatInt(k)) == GetContacts(k, None)
  {
    FormatIntNoSpace(k);
    SplitWordAlone(FormatInt(k));
    ReadsFormatted(k);
  }

  /** The argument `<k> <institution>`: the institution, quotes stripped. */
  lemma CountAndInstitution(k: int, gap: string, institution: string)
    requires gap != [] && forall i :: 0 <= i < |gap| ==> gap[i] in Whitespace
    requires institution != [] && institution[0] !in Whitespace
    ensures ParseGetContacts(FormatInt(k) + gap + institution) == GetContacts(k, Some(Strip(institution, Quotes)))
  {
    FormatIntNoSpace(k);
    SplitWordRest(FormatInt(k), gap, institution);
    ReadsFormatted(k);
  }

  /** `/getcontacts <k>` asks for the top `k` authors of all rows. */
  lemma GetContactsLine(gap: string, k: int)
    requires gap != [] && forall i :: 0 <= i < |gap| ==> gap[i] in Whitespace
    ensures ParseCommand("/getcontacts" + gap + FormatInt(k)) == GetContacts(k, None)
  {
    VisibleNotSpace("/getcontacts");
    FormatIntEnds(k);
    ParsesAs("/getcontacts", gap, FormatInt(k));
    DispatchKnown(FormatInt(k));
    CountOnly(k);
  }

  /** `/getcontacts <k> <institution>` asks for the top `k` authors of the
      rows whose affiliation mentions the institution, quotes stripped. */
  lemma GetContactsFrom(gap: string, k: int, gap2: string, institution: string)
    requires gap != [] && forall i :: 0 <= i < |gap| ==> gap[i] in Whitespace
    requires gap2 != [] && forall i :: 0 <= i < |gap2| ==> gap2[i] in Whitespace
    requires institution != [] && institution[0] !in Whitespace && institution[|institution| - 1] !in Whitespace
    ensures ParseCommand("/getcontacts" + gap + (FormatInt(k) + gap2 + institution))
              == GetContacts(k, Some(Strip(institution, Quotes)))
  {
    var f := FormatInt(k);
    FormatIntEnds(k);
    var arg := f + gap2 + institution;
    assert arg[0] == f[0] && arg[|arg| - 1] == institution[|institution| - 1];
    VisibleNotSpace("/getcontacts");
    ParsesAs("/getcontacts", gap, arg);
    DispatchKnown(arg);
    CountAndInstitution(k, gap2, institution);
  }

  /** An institution that is only quotes filters nothing: `""` is falsy. */
  lemma EmptyInstitutionMeansAll(length: int, k: int)
    ensures Respond(length, GetContacts(k, Some(Strip("\"\"", Quotes)))) == Contacts(k, None)
  {
    var q := "\"\"";
    StripLeftAround(q, [], Quotes);
    assert q + [] == q;
  }

  /** Events that are `/top` change the length; all others keep it. */
  predicate SetsLength(event: Event) {
    event.Entered? && event.command.Top?
  }

  /** Events without a `/top` leave the length as it was. */
  lemma {:induction false} LengthKept(length: int, pre: seq<Event>, post: seq<Event>)
    requires forall i :: 0 <= i < |post| ==> !SetsLength(post[i])
    ensures LengthAfter(length, pre + post) == LengthAfter(length, pre)
    decreases |post|
  {
    if post == [] {
      assert pre + post == pre;
    } else {
      var all := pre + post;
      var last := post[..|post| - 1];
      assert all[..|all| - 1] == pre + last;
      assert all[|all| - 1] == post[|post| - 1];
      LengthKept(length, pre, last);
    }
  }

  /** The last `/top` decides the length. */
  lemma LastTopWins(length: int, pre: seq<Event>, n: int, post: seq<Event>)
    requires forall i :: 0 <= i < |post| ==> !SetsLength(post[i])
    ensures LengthAfter(length, pre + [Entered(Top(n))] + post) == n
  {
    var upto := pre + [Entered(Top(n))];
    assert upto[..|upto| - 1] == pre;
    LengthKept(length, upto, post);
  }

  /** Once the loop ends, later events are never handled. */
  lemma {:induction false} EndIgnoresRest(length: int, pre: seq<Event>, x: Event, post: seq<Event>)
    requires forall i :: 0 <= i < |pre| ==> !Ends(pre[i])
    requires Ends(x)
    ensures Actions(length, pre + [x] + post) == Actions(length, pre + [x])
    decreases |pre|
  {
    if pre == [] {
      assert pre + [x] + post == [x] + post;
      assert pre + [x] == [x];
    } else {
      var rest := pre[1..];
      assert (pre + [x] + post)[0] == pre[0] && (pre + [x] + post)[1..] == rest + [x] + post;
      assert (pre + [x])[0] == pre[0] && (pre + [x])[1..] == rest + [x];
      EndIgnoresRest(NextLength(length, pre[0]), rest, x, post);
    }
  }

  /** The ending event is handled, as the last one: one action per event up
      to it. */
  lemma {:induction false} EndIsLast(length: int, pre: seq<Event>, x: Event)
    requires forall i :: 0 <= i < |pre| ==> !Ends(pre[i])
    requires Ends(x)
    ensures |Actions(length, pre + [x])| == |pre| + 1
    ensures Actions(length, pre + [x])[|pre|] == Quit
    decreases |pre|
  {
    if pre == [] {
      assert pre + [x] == [x];
    } else {
      var rest := pre[1..];
      assert (pre + [x])[0] == pre[0] && (pre + [x])[1..] == rest + [x];
      EndIsLast(NextLength(length, pre[0]), rest, x);
    }
  }

  /** Without an ending event every event is handled, end of input included. */
  lemma {:induction false} NoEndReadsAll(length: int, events: seq<Event>)
    requires forall i :: 0 <= i < |events| ==> !Ends(events[i])
    ensures |Actions(length, events)| == |events|
    ensures forall i :: 0 <= i < |events| ==> Actions(length, events)[i] != Quit
    decreases |events|
  {
    if events != [] {
      NoEndReadsAll(NextLength(length, events[0]), events[1..]);
      var tail := Actions(NextLength(length, events[0]), events[1..]);
      assert forall i :: 1 <= i < |events| ==> Actions(length, events)[i] == tail[i - 1];
    }
  }
}
