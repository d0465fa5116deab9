/**
 From the text of a message to a command: `parse_msg` with its 64-bit unsigned positions, and the dispatch
 of `process_cmd`.
 */
module CommandLine {
  import opened Wrappers
  import D = Directory

  const SIZE_T: nat := 0x1_0000_0000_0000_0000
  const NPOS: nat := SIZE_T - 1

  /** `a - b` on size_t, which wraps around below zero. */
  function WrapSub(a: nat, b: nat): (r: nat)
    requires a < SIZE_T && b < SIZE_T
    ensures r < SIZE_T
  {
    if a >= b then a - b else SIZE_T + a - b
  }

  ghost predicate Absent(s: string, c: char) {
    forall i :: 0 <= i < |s| ==> s[i] != c
  }

  /** `find(c)` on a string: the first position of `c`, or NPOS. */
  function Find(s: string, c: char): (r: nat)
    requires |s| < NPOS
    ensures r == NPOS ==> Absent(s, c)
    ensures r != NPOS ==> r < |s| && s[r] == c && forall i :: 0 <= i < r ==> s[i] != c
  {
    if s == [] then NPOS
    else if s[0] == c then 0
    else
      var r := Find(s[1..], c);
      assert forall i :: 0 < i < |s| ==> s[i] == s[1..][i - 1];
      if r == NPOS then NPOS else r + 1
  }

  /** `substr(pos, len)`: throws (None) when the position is past the end, and is cut at the end. */
  function Substr(s: string, pos: nat, len: nat): Option<string> {
    if pos > |s| then None
    else if len > |s| - pos then Some(s[pos..])
    else Some(s[pos..pos + len])
  }

  datatype Parsed = Parsed(cmd: string, param: string)

  /** The two `substr` calls, for a slash at `start` and a word end at `end`; None if one of them throws. */
  function Cut(msg: string, start: nat, end: nat): Option<Parsed>
    requires start < |msg| < NPOS && end <= |msg|
  {
    var cmd := Substr(msg, start + 1, WrapSub(WrapSub(end, start), 1));
    var param := Substr(msg, end, WrapSub(|msg|, end));
    if cmd.None? || param.None? then None else Some(Parsed(cmd.value, param.value))
  }

  /** Where the end of the word is looked for. */
  function WordEnd(msg: string): nat
    requires |msg| < NPOS
  {
    var blank := Find(msg, ' ');
    if blank == NPOS then |msg| else blank
  }

  /** The out-parameters arrive empty and stay so when there is no slash. */
  function ParseMsg(msg: string): Option<Parsed>
    requires |msg| < NPOS
  {
    var start := Find(msg, '/');
    if start == NPOS then Some(Parsed("", ""))
    else
      Cut(msg, start, WordEnd(msg))
  }

  /** A slash with no space before it; the word after it runs up to the first space. */
  ghost predicate SlashFirst(msg: string, prefix: string, word: string, param: string) {
    && msg == prefix + "/" + word + param
    && Absent(prefix, '/') && Absent(prefix, ' ') && Absent(word, ' ')
    && (param == "" || param[0] == ' ')
  }

  /** A space before the first slash. */
  ghost predicate SpaceFirst(msg: string, prefix: string, middle: string, word: string) {
    && msg == prefix + " " + middle + "/" + word
    && Absent(prefix, '/') && Absent(prefix, ' ') && Absent(middle, '/')
  }

  lemma FindIs(s: string, c: char, r: nat)
    requires r < |s| < NPOS && s[r] == c && forall i :: 0 <= i < r ==> s[i] != c
    ensures Find(s, c) == r
  {
  }

  lemma FindNothing(s: string, c: char)
    requires |s| < NPOS
    ensures Find(s, c) == NPOS <==> Absent(s, c)
  {
  }

  /** A word end before the slash wraps the count around, and the word then runs to the end of the message. */
  lemma CutIs(msg: string, start: nat, end: nat)
    requires start < |msg| < NPOS && end <= |msg| && end != start
    ensures Cut(msg, start, end)
         == Some(Parsed(if start < end then msg[start + 1..end] else msg[start + 1..], msg[end..]))
  {
    var count := WrapSub(WrapSub(end, start), 1);
    if start < end {
      assert count == end - start - 1;
    } else {
      assert count == SIZE_T + end - start - 1 > |msg| - (start + 1);
    }
    assert WrapSub(|msg|, end) == |msg| - end;
    assert msg[end..|msg|] == msg[end..];
  }

  lemma SlashFirstLayout(msg: string, prefix: string, word: string, param: string)
    requires SlashFirst(msg, prefix, word, param)
    ensures var (n, e) := (|prefix|, |prefix| + 1 + |word|);
            && e <= |msg| && msg[n] == '/' && (e < |msg| ==> msg[e] == ' ')
            && (forall i :: 0 <= i < n ==> msg[i] != '/')
            && (forall i :: 0 <= i < e ==> msg[i] != ' ')
            && msg[n + 1..e] == word && msg[e..] == param
  {
    var before := prefix + "/" + word;
    assert forall i :: 0 <= i < |before| ==> msg[i] == before[i];
    assert msg[|before|..] == param;
    assert before[|prefix| + 1..] == word;
  }

  lemma SpaceFirstLayout(msg: string, prefix: string, middle: string, word: string)
    requires SpaceFirst(msg, prefix, middle, word)
    ensures var (e, n) := (|prefix|, |prefix| + 1 + |middle|);
            && n < |msg| && msg[n] == '/' && msg[e] == ' '
            && (forall i :: 0 <= i < n ==> msg[i] != '/')
            && (forall i :: 0 <= i < e ==> msg[i] != ' ')
            && msg[n + 1..] == word
  {
    var before := prefix + " " + middle + "/";
    assert forall i :: 0 <= i < |before| ==> msg[i] == before[i];
    assert msg[|before|..] == word;
  }

  lemma SpaceFirstRest(msg: string, prefix: string, middle: string, word: string)
    requires SpaceFirst(msg, prefix, middle, word)
    ensures |prefix| <= |msg| && msg[|prefix|..] == " " + middle + "/" + word
  {
    var rest := " " + middle + "/" + word;
    assert |msg| == |prefix| + |rest|;
    forall i | 0 <= i < |rest| ensures msg[|prefix| + i] == rest[i] {
    }
  }

  lemma ParseSlashFirst(msg: string, prefix: string, word: string, param: string)
    requires |msg| < NPOS && SlashFirst(msg, prefix, word, param)
    ensures ParseMsg(msg) == Some(Parsed(word, param))
    ensures Find(msg, '/') == |prefix| < WordEnd(msg)
  {
    SlashFirstLayout(msg, prefix, word, param);
    FindIs(msg, '/', |prefix|);
    var end := |prefix| + 1 + |word|;
    if end < |msg| {
      FindIs(msg, ' ', end);
    } else {
      FindNothing(msg, ' ');
    }
    CutIs(msg, |prefix|, end);
  }

  lemma ParseSpaceFirst(msg: string, prefix: string, middle: string, word: string)
    requires |msg| < NPOS && SpaceFirst(msg, prefix, middle, word)
    ensures ParseMsg(msg) == Some(Parsed(word, " " + middle + "/" + word))
    ensures NPOS > Find(msg, '/') > WordEnd(msg)
  {
    var start, end := |prefix| + 1 + |middle|, |prefix|;
    SpaceFirstLayout(msg, prefix, middle, word);
    FindIs(msg, '/', start);
    FindIs(msg, ' ', end);
    SpaceFirstRest(msg, prefix, middle, word);
    CutIs(msg, start, end);
  }

  lemma KindsExclude(msg: string, p1: string, word1: string, param1: string, p2: string, middle2: string, word2: string)
    requires |msg| < NPOS
    ensures !(SlashFirst(msg, p1, word1, param1) && SpaceFirst(msg, p2, middle2, word2))
  {
    if SlashFirst(msg, p1, word1, param1) && SpaceFirst(msg, p2, middle2, word2) {
      ParseSlashFirst(msg, p1, word1, param1);
      ParseSpaceFirst(msg, p2, middle2, word2);
      assert false;
    }
  }

  lemma SlashFirstAt(msg: string, n: nat, e: nat)
    requires n < e <= |msg| && msg[n] == '/' && (e < |msg| ==> msg[e] == ' ')
    requires forall i :: 0 <= i < n ==> msg[i] != '/'
    requires forall i :: 0 <= i < e ==> msg[i] != ' '
    ensures SlashFirst(msg, msg[..n], msg[n + 1..e], msg[e..])
  {
    assert msg == msg[..n] + "/" + msg[n + 1..e] + msg[e..];
  }

  lemma SpaceFirstAt(msg: string, e: nat, n: nat)
    requires e < n < |msg| && msg[n] == '/' && msg[e] == ' '
    requires forall i :: 0 <= i < n ==> msg[i] != '/'
    requires forall i :: 0 <= i < e ==> msg[i] != ' '
    ensures SpaceFirst(msg, msg[..e], msg[e + 1..n], msg[n + 1..])
  {
    assert msg == msg[..e] + " " + msg[e + 1..n] + "/" + msg[n + 1..];
  }

  /** How a message with a slash comes apart: one of the two kinds holds. */
  lemma KindOf(msg: string) returns (spaceFirst: bool, a: string, b: string, c: string)
    requires |msg| < NPOS && !Absent(msg, '/')
    ensures if spaceFirst then SpaceFirst(msg, a, b, c) else SlashFirst(msg, a, b, c)
  {
    FindNothing(msg, '/');
    FindNothing(msg, ' ');
    var n, e := Find(msg, '/'), WordEnd(msg);
    spaceFirst := e < n;
    if spaceFirst {
      a, b, c := msg[..e], msg[e + 1..n], msg[n + 1..];
      SpaceFirstAt(msg, e, n);
    } else {
      a, b, c := msg[..n], msg[n + 1..e], msg[e..];
      SlashFirstAt(msg, n, e);
    }
  }

  /** Every message with a slash is of exactly one of the two kinds; parsing never throws on any message. */
  lemma ParseIsTotal(msg: string)
    requires |msg| < NPOS
    ensures ParseMsg(msg).Some?
    ensures Absent(msg, '/') ==> ParseMsg(msg) == Some(Parsed("", ""))
    ensures !Absent(msg, '/') ==> (exists a, b, c :: SlashFirst(msg, a, b, c)) || (exists a, b, c :: SpaceFirst(msg, a, b, c))
    ensures !((exists a, b, c :: SlashFirst(msg, a, b, c)) && (exists a, b, c :: SpaceFirst(msg, a, b, c)))
  {
    FindNothing(msg, '/');
    if !Absent(msg, '/') {
      var spaceFirst, a, b, c := KindOf(msg);
      if spaceFirst {
        ParseSpaceFirst(msg, a, b, c);
      } else {
        ParseSlashFirst(msg, a, b, c);
      }
    }
    if (exists a, b, c :: SlashFirst(msg, a, b, c)) && (exists a, b, c :: SpaceFirst(msg, a, b, c)) {
      var a, b, c :| SlashFirst(msg, a, b, c);
      var d, e, f :| SpaceFirst(msg, d, e, f);
      KindsExclude(msg, a, b, c, d, e, f);
    }
  }

  function LowerChar(c: char): char {
    if 'A' <= c <= 'Z' then (c as int + 32) as char else c
  }

  function UpperChar(c: char): char {
    if 'a' <= c <= 'z' then (c as int - 32) as char else c
  }

  function Lower(s: string): (r: string)
    ensures |r| == |s|
  {
    seq(|s|, i requires 0 <= i < |s| => LowerChar(s[i]))
  }

  function Upper(s: string): (r: string)
    ensures |r| == |s|
  {
    seq(|s|, i requires 0 <= i < |s| => UpperChar(s[i]))
  }

  const CAPITALS := "ABCDEFGHIJKLMNOPQRSTUVWXYZ"
  const SMALL := "abcdefghijklmnopqrstuvwxyz"

  lemma CaseOfLetters(k: nat)
    requires k < 26
    ensures LowerChar(CAPITALS[k]) == SMALL[k] && UpperChar(SMALL[k]) == CAPITALS[k]
  {
  }

  lemma CaseOfOthers(c: char)
    ensures c !in CAPITALS ==> LowerChar(c) == c
    ensures c !in SMALL ==> UpperChar(c) == c
  {
    if 'A' <= c <= 'Z' {
      assert CAPITALS[c as int - 65] == c;
    }
    if 'a' <= c <= 'z' {
      assert SMALL[c as int - 97] == c;
    }
  }

  /** Character by character, each letter changes case and every other character is left alone. */
  lemma CaseOfText(s: string, i: nat)
    requires i < |s|
    ensures forall k :: 0 <= k < 26 ==> (s[i] == CAPITALS[k] ==> Lower(s)[i] == SMALL[k])
    ensures forall k :: 0 <= k < 26 ==> (s[i] == SMALL[k] ==> Upper(s)[i] == CAPITALS[k])
    ensures s[i] !in CAPITALS ==> Lower(s)[i] == s[i]
    ensures s[i] !in SMALL ==> Upper(s)[i] == s[i]
  {
    CaseOfOthers(s[i]);
    hide LowerChar;
    hide UpperChar;
    forall k | 0 <= k < 26 ensures LowerChar(CAPITALS[k]) == SMALL[k] && UpperChar(SMALL[k]) == CAPITALS[k] {
      CaseOfLetters(k);
    }
  }

  function Dispatch(cmd: string, param: string): D.Command {
    var word := Lower(cmd);
    if word == "start" then D.Start(Upper(param))
    else if word == "stop" then D.Stop
    else if word == "set" then D.Set(param)
    else if word == "get" then D.Get
    else if word == "info" then D.Info
    else if word == "help" then D.Help
    else if word == "readme" then D.Readme
    else D.Unknown
  }

  /** What a message asks for. */
  function Interpret(msg: string): D.Command
    requires |msg| < NPOS
  {
    ParseIsTotal(msg);
    var parsed := ParseMsg(msg).value;
    Dispatch(parsed.cmd, parsed.param)
  }

  /**
   `word`, in any case, is the word right after the first slash, and `param` is what the command gets: the word ends
   at the first space if no space came earlier, and is otherwise all the rest of the message.
   */
  ghost predicate Asks(msg: string, word: string, param: string) {
    || (exists prefix, w :: SlashFirst(msg, prefix, w, param) && Lower(w) == word)
    || (exists prefix, middle, w :: SpaceFirst(msg, prefix, middle, w) && Lower(w) == word && param == " " + middle + "/" + w)
  }

  lemma AsksIffParsed(msg: string, word: string, param: string)
    requires |msg| < NPOS && word != ""
    ensures Asks(msg, word, param)
            <==> ParseMsg(msg).Some? && Lower(ParseMsg(msg).value.cmd) == word && ParseMsg(msg).value.param == param
  {
    hide ParseMsg;
    hide Lower;
    if Asks(msg, word, param) {
      if prefix, w :| SlashFirst(msg, prefix, w, param) && Lower(w) == word {
        ParseSlashFirst(msg, prefix, w, param);
      } else {
        var prefix, middle, w :| SpaceFirst(msg, prefix, middle, w) && Lower(w) == word && param == " " + middle + "/" + w;
        ParseSpaceFirst(msg, prefix, middle, w);
      }
    } else if Absent(msg, '/') {
      ParseIsTotal(msg);
    } else {
      var spaceFirst, a, b, c := KindOf(msg);
      if spaceFirst {
        ParseSpaceFirst(msg, a, b, c);
      } else {
        ParseSlashFirst(msg, a, b, c);
      }
    }
  }

  ghost predicate AsksFor(msg: string, word: string) {
    exists param :: Asks(msg, word, param)
  }

  lemma AsksForIff(msg: string, word: string)
    requires |msg| < NPOS && word != ""
    ensures AsksFor(msg, word) <==> ParseMsg(msg).Some? && Lower(ParseMsg(msg).value.cmd) == word
  {
    ParseIsTotal(msg);
    AsksIffParsed(msg, word, ParseMsg(msg).value.param);
    hide ParseMsg;
    hide Lower;
    hide Asks;
    forall param | Asks(msg, word, param) ensures Lower(ParseMsg(msg).value.cmd) == word {
      AsksIffParsed(msg, word, param);
    }
  }

  /** Which command a message is taken for, for every message. */
  lemma InterpretIff(msg: string)
    requires |msg| < NPOS
    ensures Interpret(msg).Start? <==> AsksFor(msg, "start")
    ensures Interpret(msg).Stop? <==> AsksFor(msg, "stop")
    ensures Interpret(msg).Set? <==> AsksFor(msg, "set")
    ensures Interpret(msg).Get? <==> AsksFor(msg, "get")
    ensures Interpret(msg).Info? <==> AsksFor(msg, "info")
    ensures Interpret(msg).Help? <==> AsksFor(msg, "help")
    ensures Interpret(msg).Readme? <==> AsksFor(msg, "readme")
  {
    ParseIsTotal(msg);
    AsksForIff(msg, "start");
    AsksForIff(msg, "stop");
    AsksForIff(msg, "set");
    AsksForIff(msg, "get");
    AsksForIff(msg, "info");
    AsksForIff(msg, "help");
    AsksForIff(msg, "readme");
    hide ParseMsg;
    hide Lower;
    hide AsksFor;
  }

  /** The parameter a command gets: /start's is upper-cased, /set's is kept as it is. */
  lemma ParameterIs(msg: string, param: string)
    requires |msg| < NPOS
    ensures Asks(msg, "start", param) ==> Interpret(msg) == D.Start(Upper(param))
    ensures Asks(msg, "set", param) ==> Interpret(msg) == D.Set(param)
  {
    ParseIsTotal(msg);
    AsksIffParsed(msg, "start", param);
    AsksIffParsed(msg, "set", param);
    hide ParseMsg;
    hide Lower;
    hide Upper;
    hide Asks;
  }

  /** With a space before the slash and one in the rest after it, no command is recognised. */
  lemma SpaceInsideTheWordIsNoCommand(msg: string, prefix: string, middle: string, word: string)
    requires |msg| < NPOS && SpaceFirst(msg, prefix, middle, word) && ' ' in word
    ensures Interpret(msg) == D.Unknown
  {
    ParseSpaceFirst(msg, prefix, middle, word);
    NoCommandHasASpace(word, " " + middle + "/" + word);
  }

  /**
   With a space before the slash, /start gets the message from that space on as its Tok ID. That is never empty, so the
   refusal of a /start without an ID is passed by, and the user's row is replaced.
   */
  lemma SpaceFirstStart(s: D.State, pk: string, profile: D.Profile, roll: nat,
                        msg: string, prefix: string, middle: string, word: string)
    requires |msg| < NPOS && SpaceFirst(msg, prefix, middle, word) && Lower(word) == "start"
    ensures Interpret(msg) == D.Start(Upper(" " + middle + "/" + word))
    ensures D.RegistersAs(Interpret(msg), profile) <==> profile.name.Some? && profile.bio.Some?
    ensures profile.name.Some? && profile.bio.Some? ==>
              var rows := D.Step(s, D.Message(pk, Interpret(msg), profile, roll)).rows;
              && pk in rows && rows[pk].signature == ""
              && rows[pk].tokId == D.CStr(Upper(" " + middle + "/" + word)) != ""
  {
    var param := " " + middle + "/" + word;
    assert Asks(msg, "start", param);
    ParameterIs(msg, param);
    hide Interpret;
    assert Upper(param)[0] == ' ';
  }

  /** A /start is refused for want of an ID exactly when no space comes before its slash and nothing after its word. */
  lemma StartWithoutIdIff(msg: string)
    requires |msg| < NPOS
    ensures Interpret(msg) == D.Start("")
            <==> exists prefix, word :: SlashFirst(msg, prefix, word, "") && Lower(word) == "start"
  {
    InterpretIff(msg);
    hide Interpret;
    if param :| Asks(msg, "start", param) {
      ParameterIs(msg, param);
      OneParameter(msg, "start", "", param);
      assert Upper(param) == "" <==> param == "";
    } else {
      forall prefix, word ensures !(SlashFirst(msg, prefix, word, "") && Lower(word) == "start") {
        assert SlashFirst(msg, prefix, word, "") && Lower(word) == "start" ==> Asks(msg, "start", "");
      }
    }
  }

  /** A command has one parameter, however the message is taken apart. */
  lemma OneParameter(msg: string, word: string, a: string, b: string)
    requires |msg| < NPOS && word != "" && Asks(msg, word, b)
    ensures Asks(msg, word, a) ==> a == b
  {
    AsksIffParsed(msg, word, a);
    AsksIffParsed(msg, word, b);
  }

  lemma NoCommandHasASpace(word: string, param: string)
    requires ' ' in word
    ensures Dispatch(word, param) == D.Unknown
  {
    var i :| 0 <= i < |word| && word[i] == ' ';
    var lower := Lower(word);
    assert lower[i] == ' ';
    assert ' ' in lower;
  }

  /** The three layouts, spelled out. */
  lemma LayoutsParse(prefix: string, middle: string, word: string, rest: string)
    requires |prefix| + |middle| + |word| + |rest| + 2 < NPOS
    requires forall i :: 0 <= i < |prefix| ==> prefix[i] != '/' && prefix[i] != ' '
    ensures (forall i :: 0 <= i < |word| ==> word[i] != ' ') ==>
              && ParseMsg(prefix + "/" + word) == Some(Parsed(word, ""))
              && ParseMsg(prefix + "/" + word + (" " + rest)) == Some(Parsed(word, " " + rest))
    ensures (forall i :: 0 <= i < |middle| ==> middle[i] != '/') ==>
              ParseMsg(prefix + " " + middle + "/" + word) == Some(Parsed(word, " " + middle + "/" + word))
  {
    if Absent(word, ' ') {
      var msg := prefix + "/" + word;
      assert msg == prefix + "/" + word + "";
      ParseSlashFirst(msg, prefix, word, "");
      ParseSlashFirst(msg + (" " + rest), prefix, word, " " + rest);
    }
    if Absent(middle, '/') {
      ParseSpaceFirst(prefix + " " + middle + "/" + word, prefix, middle, word);
    }
  }

  lemma InterpretParsed(msg: string, cmd: string, param: string)
    requires |msg| < NPOS && ParseMsg(msg) == Some(Parsed(cmd, param))
    ensures Interpret(msg) == Dispatch(cmd, param)
  {
  }

  lemma PlainLayouts(word: string, rest: string)
    requires Absent(word, ' ')
    ensures SlashFirst("/" + word, "", word, "")
    ensures SlashFirst("/" + word + (" " + rest), "", word, " " + rest)
  {
    assert "/" + word == "" + "/" + word + "";
    assert "/" + word + (" " + rest) == "" + "/" + word + (" " + rest);
  }

  lemma PlainCommand(word: string, rest: string)
    requires |word| + |rest| + 2 < NPOS && Absent(word, ' ')
    ensures Interpret("/" + word) == Dispatch(word, "")
    ensures Interpret("/" + word + (" " + rest)) == Dispatch(word, " " + rest)
  {
    PlainLayouts(word, rest);
    hide *;
    ParseSlashFirst("/" + word, "", word, "");
    ParseSlashFirst("/" + word + (" " + rest), "", word, " " + rest);
    InterpretParsed("/" + word, word, "");
    InterpretParsed("/" + word + (" " + rest), word, " " + rest);
  }

  /** What each command looks like, in any case and with anything after it. */
  lemma PlainCommands(w: string, rest: string)
    requires |w| + |rest| + 2 < NPOS && forall i :: 0 <= i < |w| ==> w[i] != ' '
    ensures Lower(w) == "start" ==> Interpret("/" + w + (" " + rest)) == D.Start(Upper(" " + rest))
    ensures Lower(w) == "set" ==> Interpret("/" + w + (" " + rest)) == D.Set(" " + rest)
    ensures Lower(w) == "start" ==> Interpret("/" + w) == D.Start("")
    ensures Lower(w) == "set" ==> Interpret("/" + w) == D.Set("")
    ensures Lower(w) == "stop" ==> Interpret("/" + w) == D.Stop
    ensures Lower(w) == "get" ==> Interpret("/" + w) == D.Get
    ensures Lower(w) == "info" ==> Interpret("/" + w) == D.Info
    ensures Lower(w) == "help" ==> Interpret("/" + w) == D.Help
    ensures Lower(w) == "readme" ==> Interpret("/" + w) == D.Readme
  {
    PlainCommand(w, rest);
    assert Upper("") == "";
    hide Interpret;
    hide Lower;
    hide Upper;
  }

  /** Plain letters are what commands are compared with. */
  lemma PlainLetters()
    ensures Lower("start") == "start" && Lower("set") == "set" && Lower("stop") == "stop"
    ensures Lower("get") == Lower("GeT") == "get"
    ensures Lower("info") == "info" && Lower("help") == "help" && Lower("readme") == "readme"
  {
  }
}
