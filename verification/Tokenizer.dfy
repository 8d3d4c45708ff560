/** The command line tokenizer of lib/ftm_shell.c. It works in place: arguments are positions in
    the line, each ended by a NUL written over a separator or a closing quote. */
module Tokenizer {
  import opened Sequences

  predicate IsSeparator(c: char) {
    c == '\t' || c == ' ' || c == '\n' || c == '\r'
  }

  predicate IsQuote(c: char) {
    c == '"'
  }

  /** The arguments of a text, at most room of them; None if a quote is not closed. */
  ghost function Tokens(text: string, room: nat): Option<seq<string>>
    decreases |text|
  {
    if text == "" || room == 0 then Some([])
    else if IsSeparator(text[0]) then Tokens(text[1..], room)
    else if IsQuote(text[0]) then
      var n := FirstWhere(text[1..], IsQuote);
      if 1 + n == |text| then None else Prepended(text[1..1 + n], Tokens(text[n + 2..], room - 1))
    else
      var n := FirstWhere(text, IsSeparator);
      Prepended(text[..n], Tokens(if n < |text| then text[n + 1..] else "", room - 1))
  }

  ghost function Prepended(word: string, rest: Option<seq<string>>): Option<seq<string>> {
    match rest
    case None => None
    case Some(words) => Some([word] + words)
  }

  // ---- Printing arguments ----

  datatype Argument = Bare(text: string) | Quoted(text: string)

  /** What each form can carry: a bare argument no separator and no leading quote, a quoted one
      everything but a quote; neither the NUL. */
  ghost predicate Printable(a: Argument) {
    && '\0' !in a.text
    && match a
       case Bare(text) => text != "" && text[0] != '"' && forall k :: 0 <= k < |text| ==> text[k] !in " \t\n\r"
       case Quoted(text) => '"' !in text
  }

  ghost predicate Blank(gap: string) {
    forall k :: 0 <= k < |gap| ==> gap[k] in " \t\n\r"
  }

  /** gaps[k] follows argument k; behind a bare argument it must not be empty, except at the end. */
  ghost predicate WellSpaced(args: seq<Argument>, gaps: seq<string>) {
    && |gaps| == |args|
    && (forall k :: 0 <= k < |args| ==> Printable(args[k]) && Blank(gaps[k]))
    && (forall k :: 0 <= k < |args| - 1 && args[k].Bare? ==> gaps[k] != "")
  }

  ghost function Printed(args: seq<Argument>, gaps: seq<string>): string
    requires |gaps| == |args|
  {
    if args == [] then ""
    else
      (match args[0]
       case Bare(text) => text
       case Quoted(text) => "\"" + text + "\"") + gaps[0] + Printed(args[1..], gaps[1..])
  }

  ghost function Texts(args: seq<Argument>): seq<string> {
    seq(|args|, k requires 0 <= k < |args| => args[k].text)
  }

  lemma {:induction false} SkipsBlank(gap: string, rest: string, room: nat)
    requires Blank(gap)
    ensures Tokens(gap + rest, room) == Tokens(rest, room)
  {
    if gap == "" {
      assert gap + rest == rest;
    } else {
      assert (gap + rest)[1..] == gap[1..] + rest;
      SkipsBlank(gap[1..], rest, room);
      NoRoom(rest, room);
    }
  }

  lemma NoRoom(text: string, room: nat)
    ensures room == 0 ==> Tokens(text, room) == Some([])
  {
  }

  lemma TakesBare(text: string, rest: string, room: nat)
    requires Printable(Bare(text)) && room > 0 && (rest != "" ==> IsSeparator(rest[0]))
    ensures Tokens(text + rest, room) == Prepended(text, Tokens(rest, room - 1))
  {
    var all := text + rest;
    FirstWhereIs(all, IsSeparator, |text|);
    assert all[..|text|] == text;
    if rest != "" {
      assert all[|text| + 1..] == rest[1..];
      NoRoom(rest[1..], room - 1);
    }
  }

  lemma TakesQuoted(text: string, rest: string, room: nat)
    requires Printable(Quoted(text)) && room > 0
    ensures Tokens("\"" + text + "\"" + rest, room) == Prepended(text, Tokens(rest, room - 1))
  {
    var all := "\"" + text + "\"" + rest;
    var n := |text|;
    assert all[1..] == text + "\"" + rest;
    FirstWhereIs(all[1..], IsQuote, n);
    assert all[1..1 + n] == text && all[n + 2..] == rest;
  }

  /** The tokenizer recovers the arguments of every printed line that has room for them. */
  lemma {:induction false} TokensOfPrinted(gap: string, args: seq<Argument>, gaps: seq<string>, room: nat)
    requires Blank(gap) && WellSpaced(args, gaps) && |args| <= room
    ensures Tokens(gap + Printed(args, gaps), room) == Some(Texts(args))
    decreases |args|
  {
    SkipsBlank(gap, Printed(args, gaps), room);
    if args == [] {
      assert Texts(args) == [];
    } else {
      var more := gaps[0] + Printed(args[1..], gaps[1..]);
      TokensOfPrinted(gaps[0], args[1..], gaps[1..], room - 1);
      assert Texts(args) == [args[0].text] + Texts(args[1..]);
      assert more != "" && args[0].Bare? ==> gaps[0] != "" && more[0] == gaps[0][0];
      TakesFirst(args, gaps, more, room);
    }
  }

  lemma TakesFirst(args: seq<Argument>, gaps: seq<string>, more: string, room: nat)
    requires args != [] && |gaps| == |args| && Printable(args[0]) && room > 0
    requires more == gaps[0] + Printed(args[1..], gaps[1..])
    requires more != "" && args[0].Bare? ==> IsSeparator(more[0])
    ensures Tokens(Printed(args, gaps), room) == Prepended(args[0].text, Tokens(more, room - 1))
  {
    match args[0]
    case Bare(text) =>
      assert Printed(args, gaps) == text + more;
      TakesBare(text, more, room);
    case Quoted(text) =>
      assert Printed(args, gaps) == "\"" + text + "\"" + more;
      TakesQuoted(text, more, room);
  }

  // ---- The code ----

  /** A C string stands at position at. */
  ghost predicate HoldsAt(line: seq<char>, at: nat, text: string) {
    && at + |text| < |line|
    && line[at..at + |text|] == text
    && line[at + |text|] == '\0'
    && '\0' !in text
  }

  /** At each start stands its word, and all of them end at or before position end. */
  ghost predicate HoldsAll(line: seq<char>, starts: seq<nat>, words: seq<string>, end: nat) {
    && |starts| == |words|
    && forall k :: 0 <= k < |words| ==> HoldsAt(line, starts[k], words[k]) && starts[k] + |words[k]| <= end
  }

  /** The bytes from at on are those of the original text. */
  ghost predicate Untouched(line: seq<char>, text: string, at: nat) {
    at <= |text| < |line| && line[at..|text|] == text[at..] && line[|text|] == '\0'
  }

  /** The words found so far, and those the rest of the text holds. */
  ghost function Joined(words: seq<string>, rest: Option<seq<string>>): Option<seq<string>> {
    match rest
    case None => None
    case Some(more) => Some(words + more)
  }

  /** Up to at the words were found and ended, from at on the text is untouched, and the words
      found continue to what the whole text holds. */
  ghost predicate Progress(line: seq<char>, text: string, starts: seq<nat>, words: seq<string>, at: nat, room: nat) {
    && Untouched(line, text, at) && HoldsAll(line, starts, words, at)
    && |starts| <= room && '\0' !in text
    && Tokens(text, room) == Joined(words, Tokens(text[at..], room - |starts|))
  }

  lemma Begins(line: seq<char>, text: string, room: nat)
    requires HoldsAt(line, 0, text)
    ensures Progress(line, text, [], [], 0, room)
  {
    assert text[0..] == text;
    JoinsNone(Tokens(text, room));
  }

  lemma JoinsNone(rest: Option<seq<string>>)
    ensures Joined([], rest) == rest
  {
    if rest.Some? { assert [] + rest.value == rest.value; }
  }

  lemma Finishes(line: seq<char>, text: string, starts: seq<nat>, words: seq<string>, at: nat, room: nat)
    requires Progress(line, text, starts, words, at, room)
    requires at == |text| || |starts| == room
    ensures Tokens(text, room) == Some(words)
  {
    NoRoom(text[at..], room - |starts|);
    assert words + [] == words;
  }

  lemma StepsOverSeparator(line: seq<char>, text: string, starts: seq<nat>, words: seq<string>, at: nat, room: nat)
    requires Progress(line, text, starts, words, at, room) && at < |text| && |starts| < room
    requires IsSeparator(text[at])
    ensures Progress(line, text, starts, words, at + 1, room)
  {
  }

  lemma StepsOverQuoted(line: seq<char>, text: string, starts: seq<nat>, words: seq<string>,
                        at: nat, end: nat, room: nat)
    requires Progress(line, text, starts, words, at, room) && |starts| < room
    requires at < end < |text| && IsQuote(text[at]) && end - at - 1 == FirstWhere(text[at + 1..], IsQuote)
    ensures Progress(line[end := '\0'], text, starts + [at + 1], words + [text[at + 1..end]], end + 1, room)
  {
    EndsWord(line, text, starts, words, at, at + 1, end);
    HoldsFurther(line[end := '\0'], starts + [at + 1], words + [text[at + 1..end]], end, end + 1);
    PassesQuoted(text, at, end, room - |starts|, words);
  }

  lemma HoldsFurther(line: seq<char>, starts: seq<nat>, words: seq<string>, end: nat, further: nat)
    requires HoldsAll(line, starts, words, end) && end <= further
    ensures HoldsAll(line, starts, words, further)
  {
  }

  lemma StepsOverBare(line: seq<char>, text: string, starts: seq<nat>, words: seq<string>, at: nat, end: nat, room: nat)
    requires Progress(line, text, starts, words, at, room) && |starts| < room
    requires at < end <= |text| && !IsSeparator(text[at]) && !IsQuote(text[at])
    requires end - at == FirstWhere(text[at..], IsSeparator)
    ensures Progress(line[end := '\0'], text, starts + [at], words + [text[at..end]],
                     if end < |text| then end + 1 else end, room)
    ensures end == |text| ==> line[end := '\0'] == line
  {
    EndsWord(line, text, starts, words, at, at, end);
    HoldsFurther(line[end := '\0'], starts + [at], words + [text[at..end]], end, end + 1);
    PassesBare(text, at, end, room - |starts|, words);
    assert end == |text| ==> text[end..] == "";
  }

  lemma PassesQuoted(text: string, at: nat, end: nat, room: nat, words: seq<string>)
    requires at < end < |text| && IsQuote(text[at]) && room > 0
    requires end - at - 1 == FirstWhere(text[at + 1..], IsQuote)
    ensures Joined(words, Tokens(text[at..], room)) ==
            Joined(words + [text[at + 1..end]], Tokens(text[end + 1..], room - 1))
  {
    var rest := text[at..];
    assert rest[1..] == text[at + 1..];
    assert rest[1..1 + (end - at - 1)] == text[at + 1..end];
    assert rest[end - at - 1 + 2..] == text[end + 1..];
    JoinsOne(words, text[at + 1..end], Tokens(text[end + 1..], room - 1));
  }

  lemma StopsUnclosed(text: string, at: nat, room: nat)
    requires at < |text| && IsQuote(text[at]) && room > 0
    requires FirstWhere(text[at + 1..], IsQuote) == |text| - at - 1
    ensures Tokens(text[at..], room) == None
  {
  }

  lemma PassesBare(text: string, at: nat, end: nat, room: nat, words: seq<string>)
    requires at < end <= |text| && !IsSeparator(text[at]) && !IsQuote(text[at]) && room > 0
    requires end - at == FirstWhere(text[at..], IsSeparator)
    ensures Joined(words, Tokens(text[at..], room)) ==
            Joined(words + [text[at..end]], Tokens(if end < |text| then text[end + 1..] else "", room - 1))
  {
    var rest := text[at..];
    assert rest[..end - at] == text[at..end];
    if end < |text| {
      assert rest[end - at + 1..] == text[end + 1..];
    }
    JoinsOne(words, text[at..end], Tokens(if end < |text| then text[end + 1..] else "", room - 1));
  }

  lemma JoinsOne(words: seq<string>, word: string, rest: Option<seq<string>>)
    ensures Joined(words, Prepended(word, rest)) == Joined(words + [word], rest)
  {
    if rest.Some? {
      assert words + ([word] + rest.value) == (words + [word]) + rest.value;
    }
  }

  lemma SliceOfSlice(s: seq<char>, a: nat, b: nat, c: nat, d: nat)
    requires a <= b <= |s| && c <= d <= b - a
    ensures s[a..b][c..d] == s[a + c..a + d]
  {
    var x, y := s[a..b][c..d], s[a + c..a + d];
    forall k | 0 <= k < d - c ensures x[k] == y[k] {
      assert x[k] == s[a..b][c + k] == s[a + (c + k)];
    }
  }

  lemma StandsOn(line: seq<char>, text: string, at: nat)
    requires Untouched(line, text, at) && '\0' !in text
    ensures line[at] == '\0' <==> at == |text|
    ensures at < |text| ==> line[at] == text[at] && Untouched(line, text, at + 1)
  {
  }

  /** Ending a word behind all others adds it and leaves the text behind it alone. */
  lemma EndsWord(line: seq<char>, text: string, starts: seq<nat>, words: seq<string>, at: nat, from: nat, end: nat)
    requires Untouched(line, text, at) && HoldsAll(line, starts, words, at) && '\0' !in text
    requires at <= from <= end <= |text| && at < end
    ensures HoldsAll(line[end := '\0'], starts + [from], words + [text[from..end]], end)
    ensures end < |text| ==> Untouched(line[end := '\0'], text, end + 1)
    ensures end == |text| ==> line[end := '\0'] == line
  {
    var l := line[end := '\0'];
    forall k | 0 <= k < |words| ensures HoldsAt(l, starts[k], words[k]) {
      assert l[starts[k]..starts[k] + |words[k]|] == line[starts[k]..starts[k] + |words[k]|];
    }
    assert l[from..end] == line[from..end] && text[at..|text|] == text[at..];
    SliceOfSlice(line, at, |text|, from - at, end - at);
    SliceOfSlice(text, at, |text|, from - at, end - at);
    if end < |text| {
      assert l[end + 1..|text|] == line[at..|text|][end + 1 - at..] == text[at..][end + 1 - at..] == text[end + 1..];
    }
  }

  /** The first position from at on that satisfies p or ends the string. */
  method Scan(line: array<char>, at: nat, p: char -> bool, ghost text: string) returns (end: nat)
    requires Untouched(line[..], text, at) && '\0' !in text
    ensures at <= end <= |text| && end - at == FirstWhere(text[at..], p)
    ensures line[end] == '\0' <==> end == |text|
  {
    assert forall k :: at <= k < |text| ==> line[k] == line[..][at..|text|][k - at] == text[at..][k - at];
    end := at;
    while line[end] != '\0' && !p(line[end])
      invariant at <= end <= |text|
      invariant forall k :: 0 <= k < end - at ==> !p(text[at..][k])
      decreases |text| - end
    {
      end := end + 1;
    }
    FirstWhereIs(text[at..], p, end - at);
  }

  method EndAt(line: array<char>, end: nat)
    requires end < line.Length
    modifies line
    ensures line[..] == old(line[..])[end := '\0']
  {
    line[end] := '\0';
  }

  /** The quoted argument at position at; found is false if its quote is not closed. */
  method TakeQuoted(line: array<char>, at: nat, room: nat,
                    ghost text: string, ghost starts: seq<nat>, ghost words: seq<string>)
    returns (found: bool, next: nat, ghost word: string)
    requires Progress(line[..], text, starts, words, at, room) && |starts| < room
    requires at < |text| && IsQuote(line[at])
    modifies line
    ensures at < next
    ensures found ==> Progress(line[..], text, starts + [at + 1], words + [word], next, room)
    ensures !found ==> Tokens(text, room) == None
  {
    ghost var was := line[..];
    StandsOn(was, text, at);
    var end := Scan(line, at + 1, IsQuote, text);
    word := text[at + 1..end];
    found, next := line[end] != '\0', end + 1;
    if found {
      EndAt(line, end);
      StepsOverQuoted(was, text, starts, words, at, end, room);
    } else {
      StopsUnclosed(text, at, room - |starts|);
    }
  }

  method TakeBare(line: array<char>, at: nat, room: nat,
                  ghost text: string, ghost starts: seq<nat>, ghost words: seq<string>)
    returns (next: nat, ghost word: string)
    requires Progress(line[..], text, starts, words, at, room) && |starts| < room
    requires at < |text| && !IsSeparator(line[at]) && !IsQuote(line[at])
    modifies line
    ensures at < next && Progress(line[..], text, starts + [at], words + [word], next, room)
  {
    StandsOn(line[..], text, at);
    next := Scan(line, at, IsSeparator, text);
    StepsOverBare(line[..], text, starts, words, at, next, room);
    word := text[at..next];
    if line[next] != '\0' {
      EndAt(line, next);
      next := next + 1;
    }
  }

  method ParseLine(line: array<char>, room: nat, ghost text: string) returns (ok: bool, starts: seq<nat>)
    requires HoldsAt(line[..], 0, text)
    modifies line
    ensures ok <==> Tokens(text, room).Some?
    ensures ok ==> HoldsAll(line[..], starts, Tokens(text, room).value, |text|)
  {
    ok, starts := true, [];
    var at: nat := 0;
    ghost var words: seq<string> := [];
    Begins(line[..], text, room);
    StandsOn(line[..], text, 0);
    while line[at] != '\0' && |starts| < room
      invariant Progress(line[..], text, starts, words, at, room) && ok
      invariant line[at] == '\0' <==> at == |text|
      decreases |text| - at
    {
      ghost var word;
      if IsSeparator(line[at]) {
        StandsOn(line[..], text, at);
        StepsOverSeparator(line[..], text, starts, words, at, room);
        at := at + 1;
      } else if line[at] == '"' {
        var next;
        ok, next, word := TakeQuoted(line, at, room, text, starts, words);
        if !ok {
          return;
        }
        starts, words, at := starts + [at + 1], words + [word], next;
      } else {
        var next;
        next, word := TakeBare(line, at, room, text, starts, words);
        starts, words, at := starts + [at], words + [word], next;
      }
      StandsOn(line[..], text, at);
    }
    Finishes(line[..], text, starts, words, at, room);
  }
}
