/** The command list of lib/ftm_shell.c: sorted insertion into the linked list, and the lookup by
    name or unique beginning, ignoring case. */
module ShellCommands {
  import opened Sequences
  import opened Names
  import opened LinkedList

  // ---- Sorted insertion ----

  ghost predicate Opposite<T>(cmp: (T, T) -> int, a: T, b: T) {
    cmp(a, b) <= 0 <==> cmp(b, a) >= 0
  }

  ghost predicate Chained<T>(cmp: (T, T) -> int, a: T, b: T, c: T) {
    cmp(a, b) <= 0 && cmp(b, c) <= 0 ==> cmp(a, c) <= 0
  }

  /** cmp compares like a total order on what it looks at; elements it finds equal may differ. */
  ghost predicate Compares<T(!new)>(cmp: (T, T) -> int) {
    (forall a, b :: Opposite(cmp, a, b)) && (forall a, b, c :: Chained(cmp, a, b, c))
  }

  /** In ascending order for sign 1, in descending order for sign -1. */
  ghost predicate Sorted<T>(s: seq<T>, cmp: (T, T) -> int, sign: int) {
    forall i, j :: 0 <= i < j < |s| ==> sign * cmp(s[i], s[j]) <= 0
  }

  /** The place of a sorted insertion is behind what compares equal or on the near side, so that
      equal elements keep their order of arrival. */
  lemma InsertionPlace<T(!new)>(s: seq<T>, cmp: (T, T) -> int, x: T, sign: int, i: nat)
    requires sign in {1, -1} && Compares(cmp) && Sorted(s, cmp, sign) && i < |s|
    ensures i < FirstWhere(s, Beyond(cmp, x, sign)) <==> sign * cmp(s[i], x) <= 0
  {
    var k := FirstWhere(s, Beyond(cmp, x, sign));
    if i < k {
      assert !Beyond(cmp, x, sign)(s[i]);
    } else {
      assert Beyond(cmp, x, sign)(s[k]);
      assert Chained(cmp, s[k], s[i], x) && Chained(cmp, x, s[i], s[k]);
      assert Opposite(cmp, s[k], s[i]) && Opposite(cmp, s[i], x) && Opposite(cmp, s[k], x);
      assert Opposite(cmp, x, s[k]) && Opposite(cmp, x, s[i]) && Opposite(cmp, s[i], s[k]);
    }
  }

  /** A sorted insertion keeps a list of that order in order. */
  lemma InsertionKeepsSorted<T(!new)>(s: seq<T>, cmp: (T, T) -> int, x: T, sign: int)
    requires sign in {1, -1} && Compares(cmp) && Sorted(s, cmp, sign)
    ensures Sorted(InsertedAt(s, FirstWhere(s, Beyond(cmp, x, sign)), x), cmp, sign)
  {
    var k := FirstWhere(s, Beyond(cmp, x, sign));
    var r := InsertedAt(s, k, x);
    forall i, j | 0 <= i < j < |r| ensures sign * cmp(r[i], r[j]) <= 0 {
      if j == k {
        InsertionPlace(s, cmp, x, sign, i);
      } else if i == k {
        InsertionPlace(s, cmp, x, sign, j - 1);
        assert Opposite(cmp, x, s[j - 1]) && Opposite(cmp, s[j - 1], x);
      } else {
        assert r[i] == s[if i < k then i else i - 1] && r[j] == s[if j < k then j else j - 1];
      }
    }
  }

  // ---- Commands ----

  datatype Command = Command(name: string, action: nat)

  /** The sign of strcmp. */
  function Compare(a: Command, b: Command): int {
    if TextLess(a.name, b.name) then -1 else if a.name == b.name then 0 else 1
  }

  predicate HasName(c: Command, name: string) {
    c.name == name
  }

  lemma CompareCompares()
    ensures Compares(Compare)
  {
    forall a, b ensures Opposite(Compare, a, b) {
      assert Compare(a, b) <= 0 <==> Compare(b, a) >= 0 by {
        TextLessIsTotal(a.name, b.name);
        if TextLess(a.name, b.name) { TextLessIsAsymmetric(a.name, b.name); }
        if TextLess(b.name, a.name) { TextLessIsAsymmetric(b.name, a.name); }
      }
    }
    forall a, b, c ensures Chained(Compare, a, b, c) {
      assert Compare(a, b) <= 0 && Compare(b, c) <= 0 ==> Compare(a, c) <= 0 by {
        if TextLess(a.name, b.name) && TextLess(b.name, c.name) {
          TextLessIsTransitive(a.name, b.name, c.name);
        }
      }
    }
  }

  lemma Named(name: string)
    ensures forall c :: Sought(HasName, name)(c) <==> c.name == name
    ensures forall c :: Sought(NameMatches, name)(c) <==> SameIgnoringCase(name, c.name)
  {
    forall c: Command ensures Sought(HasName, name)(c) <==> c.name == name {
      assert HasName(c, name) <==> c.name == name;
    }
    forall c: Command ensures Sought(NameMatches, name)(c) <==> SameIgnoringCase(name, c.name) {
      assert NameMatches(c, name) <==> SameIgnoringCase(name, c.name);
    }
  }

  /** Sorted by name, no name twice. */
  ghost predicate Ordered(cmds: seq<Command>) {
    Sorted(cmds, Compare, 1) && forall i, j :: 0 <= i < j < |cmds| ==> cmds[i].name != cmds[j].name
  }

  /** Each name stands before all later ones in the order of strcmp. */
  lemma OrderedIff(cmds: seq<Command>)
    ensures Ordered(cmds) <==> forall i, j :: 0 <= i < j < |cmds| ==> TextLess(cmds[i].name, cmds[j].name)
  {
    forall a: string ensures !TextLess(a, a) {
      if TextLess(a, a) { TextLessIsAsymmetric(a, a); }
    }
  }

  ghost function Without(cmds: seq<Command>, name: string): seq<Command> {
    var k := FirstWhere(cmds, Sought(HasName, name));
    if k < |cmds| then RemovedAt(cmds, k) else cmds
  }

  ghost function Appended(cmds: seq<Command>, cmd: Command): seq<Command> {
    var rest := Without(cmds, cmd.name);
    InsertedAt(rest, FirstWhere(rest, Beyond(Compare, cmd, 1)), cmd)
  }

  lemma OrderedRemoved(cmds: seq<Command>, k: nat)
    requires Ordered(cmds) && k < |cmds|
    ensures Ordered(RemovedAt(cmds, k))
  {
  }

  lemma RemovedMembers(cmds: seq<Command>, k: nat)
    requires k < |cmds| && forall i, j :: 0 <= i < j < |cmds| ==> cmds[i].name != cmds[j].name
    ensures forall c :: c in RemovedAt(cmds, k) <==> c in cmds && c.name != cmds[k].name
  {
  }

  lemma WithoutDropsName(cmds: seq<Command>, name: string)
    requires Ordered(cmds)
    ensures Ordered(Without(cmds, name))
    ensures forall c :: c in Without(cmds, name) <==> c in cmds && c.name != name
  {
    var k := FirstWhere(cmds, Sought(HasName, name));
    Named(name);
    if k < |cmds| {
      OrderedRemoved(cmds, k);
      RemovedMembers(cmds, k);
    }
  }

  /** Registering a command replaces the one of its name and keeps the list ordered. */
  lemma AppendedReplaces(cmds: seq<Command>, cmd: Command)
    requires Ordered(cmds)
    ensures Ordered(Appended(cmds, cmd))
    ensures var r := Appended(cmds, cmd); forall i, j :: 0 <= i < j < |r| ==> TextLess(r[i].name, r[j].name)
    ensures forall c :: c in Appended(cmds, cmd) <==> c == cmd || (c in cmds && c.name != cmd.name)
  {
    var rest := Without(cmds, cmd.name);
    var k := FirstWhere(rest, Beyond(Compare, cmd, 1));
    WithoutDropsName(cmds, cmd.name);
    CompareCompares();
    InsertionKeepsSorted(rest, Compare, cmd, 1);
    InsertedElements(rest, k, cmd);
    InsertedNames(rest, k, cmd);
    OrderedIff(Appended(cmds, cmd));
  }

  lemma InsertedNames(rest: seq<Command>, k: nat, cmd: Command)
    requires k <= |rest| && forall c :: c in rest ==> c.name != cmd.name
    requires forall i, j :: 0 <= i < j < |rest| ==> rest[i].name != rest[j].name
    ensures var r := InsertedAt(rest, k, cmd);
            forall i, j :: 0 <= i < j < |r| ==> r[i].name != r[j].name
  {
  }

  lemma InsertedElements<T>(s: seq<T>, k: nat, x: T)
    requires k <= |s|
    ensures forall y :: y in InsertedAt(s, k, x) <==> y == x || y in s
  {
  }

  // ---- Lookup ----

  predicate NameMatches(c: Command, name: string) {
    SameIgnoringCase(name, c.name)
  }

  /** strncasecmp over the length of the name looked for. */
  predicate NameBegins(c: Command, name: string) {
    |name| <= |c.name| && SameIgnoringCase(name, c.name[..|name|])
  }

  /** A match in full wins over a beginning; a single letter is no beginning. */
  ghost function Looked(cmds: seq<Command>, name: string): Option<Command> {
    var full := FirstOf(cmds, Sought(NameMatches, name));
    if full.Some? || |name| <= 1 then full else FirstOf(cmds, Sought(NameBegins, name))
  }

  lemma Beginning(name: string)
    ensures forall c :: Sought(NameBegins, name)(c) <==>
              |name| <= |c.name| && SameIgnoringCase(name, c.name[..|name|])
  {
    forall c: Command
      ensures Sought(NameBegins, name)(c) <==> |name| <= |c.name| && SameIgnoringCase(name, c.name[..|name|])
    {
      assert NameBegins(c, name) <==> |name| <= |c.name| && SameIgnoringCase(name, c.name[..|name|]);
    }
  }

  /** The first command whose name is the one looked for up to case is found. */
  lemma FullNameFinds(cmds: seq<Command>, name: string, k: nat)
    requires k < |cmds| && SameIgnoringCase(name, cmds[k].name)
    requires forall j :: 0 <= j < k ==> !SameIgnoringCase(name, cmds[j].name)
    ensures Looked(cmds, name) == Some(cmds[k])
  {
    Named(name);
    FirstWhereIs(cmds, Sought(NameMatches, name), k);
  }

  /** Without one, two letters and more find the first command whose name begins with them up to
      case, and fewer find nothing. */
  lemma BeginningFinds(cmds: seq<Command>, name: string, k: nat)
    requires forall j :: 0 <= j < |cmds| ==> !SameIgnoringCase(name, cmds[j].name)
    requires k <= |cmds| && (k < |cmds| ==> |name| <= |cmds[k].name| && SameIgnoringCase(name, cmds[k].name[..|name|]))
    requires forall j :: 0 <= j < k ==> !(|name| <= |cmds[j].name| && SameIgnoringCase(name, cmds[j].name[..|name|]))
    ensures Looked(cmds, name) == if |name| >= 2 && k < |cmds| then Some(cmds[k]) else None
  {
    Named(name);
    Beginning(name);
    FirstWhereIs(cmds, Sought(NameMatches, name), |cmds|);
    FirstWhereIs(cmds, Sought(NameBegins, name), k);
  }

  /** A registered command is found by its own name exactly if no command before it in the list
      has that name in another case. */
  lemma NameFindsCommandIff(cmds: seq<Command>, i: nat)
    requires Ordered(cmds) && i < |cmds|
    ensures Looked(cmds, cmds[i].name) == Some(cmds[i]) <==>
            forall j :: 0 <= j < i ==> !SameIgnoringCase(cmds[i].name, cmds[j].name)
  {
    var name := cmds[i].name;
    var k := FirstWhere(cmds, Sought(NameMatches, name));
    Named(name);
    assert SameIgnoringCase(name, cmds[i].name) && k <= i;
    assert Looked(cmds, name) == Some(cmds[k]);
  }

  // ---- The code ----

  class Shell {
    const cmds: List<Command, string>

    ghost predicate Valid()
      reads this, cmds, cmds.ring
    {
      && cmds.Valid() && !cmds.locked && cmds.IteratorSafe()
      && cmds.seeker == Some(HasName) && cmds.comparator == Some(Compare)
    }

    constructor ()
      ensures Valid() && cmds.Contents() == []
    {
      cmds := new List<Command, string>();
      new;
      cmds.seeker, cmds.comparator := Some(HasName), Some(Compare);
    }

    method AppendCmd(cmd: Command) returns (r: Status)
      requires Valid()
      modifies cmds, cmds.Nodes()
      ensures Valid() && r == Ok
      ensures cmds.Contents() == Appended(old(cmds.Contents()), cmd)
    {
      DropName(cmd.name);
      r := cmds.Insert(cmd, Ascending);
    }

    method DropName(name: string)
      requires Valid()
      modifies cmds, cmds.Nodes()
      ensures Valid() && cmds.Nodes() <= old(cmds.Nodes())
      ensures cmds.Contents() == Without(old(cmds.Contents()), name)
    {
      ghost var before := cmds.Contents();
      var existing := cmds.Get(name);
      if existing.Some? {
        FirstIsFirst(before, Sought(HasName, name));
        var r := cmds.Remove(existing.value);
      }
    }

    method GetCmd(name: string) returns (found: Option<Command>)
      requires Valid()
      modifies cmds
      ensures Valid() && cmds.Contents() == old(cmds.Contents())
      ensures found == Looked(cmds.Contents(), name)
    {
      found := FirstMatch(name, NameMatches);
      if found.None? && |name| > 1 {
        found := FirstMatch(name, NameBegins);
      }
    }

    /** Iterates until a command matches. */
    method FirstMatch(name: string, matches: (Command, string) -> bool) returns (found: Option<Command>)
      requires Valid()
      modifies cmds
      ensures Valid() && cmds.Contents() == old(cmds.Contents()) && cmds.ring == old(cmds.ring)
      ensures found == FirstOf(cmds.Contents(), Sought(matches, name))
    {
      cmds.IteratorStart();
      var r, element := cmds.IteratorNext();
      ghost var k := 0;
      while r == Ok && !matches(element.value, name)
        invariant Valid() && cmds.Contents() == old(cmds.Contents()) && cmds.ring == old(cmds.ring)
        invariant cmds.iterating && k <= |cmds.Contents()|
        invariant r == if k < |cmds.Contents()| then Ok else ObjectNotFound
        invariant r == Ok ==> element == Some(cmds.Contents()[k]) && cmds.cursor == k + 1
        invariant forall j :: 0 <= j < k ==> !Sought(matches, name)(cmds.Contents()[j])
        decreases |cmds.Contents()| - k
      {
        r, element := cmds.IteratorNext();
        k := k + 1;
      }
      FirstWhereIs(cmds.Contents(), Sought(matches, name), k);
      found := if r == Ok then element else None;
    }
  }
}
