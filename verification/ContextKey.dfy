/** CommandContext.UniqueString: the printed key of the augmentation cache, how to read the
    fields back from it, and exactly when no other context prints the same key. */
module ContextKey {
  import opened Common
  import Decimal

  datatype CommandContext = CommandContext(
    uid: int,
    gid: int,
    pid: int,
    commandName: string,
    commandPath: string,
    cgroupPath: string)

  function AfterGid(c: CommandContext): string {
    c.commandName + "-" + c.commandPath
  }

  function AfterUid(c: CommandContext): string {
    Decimal.Int(c.gid) + "-" + AfterGid(c)
  }

  function AfterCgroup(c: CommandContext): string {
    Decimal.Int(c.uid) + "-" + AfterUid(c)
  }

  /** "%s-%d-%d-%s-%s"; the process ID takes no part. */
  function UniqueString(c: CommandContext): string {
    c.cgroupPath + "-" + AfterCgroup(c)
  }

  /** The five fields in their order, joined by '-'. */
  lemma FieldsInOrder(c: CommandContext)
    ensures UniqueString(c) == c.cgroupPath + "-" + Decimal.Int(c.uid) + "-" + Decimal.Int(c.gid)
                               + "-" + c.commandName + "-" + c.commandPath
  {
    hide Decimal.Int;
  }

  datatype KeyParts = KeyParts(cgroupPath: string, uid: int, gid: int, commandName: string, commandPath: string)

  function KeyFields(c: CommandContext): KeyParts {
    KeyParts(c.cgroupPath, c.uid, c.gid, c.commandName, c.commandPath)
  }

  /** The text up to the first '-' at or after `from`, and the text behind that '-'. */
  function Cut(s: string, from: nat): (string, string)
    requires from <= |s|
  {
    var i := Decimal.IndexFrom(s, '-', from);
    (s[..i], if i < |s| then s[i + 1..] else "")
  }

  /** Where a number at the start of `s` ends: a leading '-' belongs to the number. */
  function NumberEnd(s: string): (i: nat)
    ensures i <= |s|
  {
    Decimal.IndexFrom(s, '-', if s != "" && s[0] == '-' then 1 else 0)
  }

  function CutInt(s: string): (int, string) {
    var i := NumberEnd(s);
    (Decimal.ParseInt(s[..i]), if i < |s| then s[i + 1..] else "")
  }

  function Decode(key: string): KeyParts {
    var (cgroupPath, r1) := Cut(key, 0);
    var (uid, r2) := CutInt(r1);
    var (gid, r3) := CutInt(r2);
    var (commandName, commandPath) := Cut(r3, 0);
    KeyParts(cgroupPath, uid, gid, commandName, commandPath)
  }

  // ----- reading the fields back -----

  lemma CutText(a: string, rest: string)
    requires '-' !in a
    ensures Cut(a + "-" + rest, 0) == (a, rest)
  {
    Decimal.CutFirst(a, '-', rest, 0);
  }

  lemma IntDashes(n: int)
    ensures var a := Decimal.Int(n);
            a != "" && (a[0] == '-' <==> n < 0) && forall k :: 0 < k < |a| ==> a[k] != '-'
  {
  }

  lemma NumberEndsThere(n: int, rest: string)
    ensures NumberEnd(Decimal.Int(n) + "-" + rest) == |Decimal.Int(n)|
    ensures (Decimal.Int(n) + "-" + rest)[..|Decimal.Int(n)|] == Decimal.Int(n)
    ensures (Decimal.Int(n) + "-" + rest)[|Decimal.Int(n)| + 1..] == rest
  {
    var a := Decimal.Int(n);
    IntDashes(n);
    assert (a + "-" + rest)[0] == a[0];
    Decimal.CutFirst(a, '-', rest, if n < 0 then 1 else 0);
  }

  lemma CutNumber(n: int, rest: string)
    ensures CutInt(Decimal.Int(n) + "-" + rest) == (n, rest)
  {
    NumberEndsThere(n, rest);
    Decimal.IntRoundTrip(n);
  }

  /** The key is read back exactly, negative numbers included, when the cgroup path and the
      command name contain no '-'. */
  lemma DecodeInverts(c: CommandContext)
    requires '-' !in c.cgroupPath && '-' !in c.commandName
    ensures Decode(UniqueString(c)) == KeyFields(c)
  {
    CutText(c.cgroupPath, AfterCgroup(c));
    CutNumber(c.uid, AfterUid(c));
    CutNumber(c.gid, AfterGid(c));
    CutText(c.commandName, c.commandPath);
  }

  lemma KeyDeterminesFields(c: CommandContext, d: CommandContext)
    requires '-' !in c.cgroupPath && '-' !in c.commandName && '-' !in d.cgroupPath && '-' !in d.commandName
    ensures UniqueString(c) == UniqueString(d) <==> KeyFields(c) == KeyFields(d)
  {
    DecodeInverts(c);
    DecodeInverts(d);
  }

  // ----- within one cgroup -----

  lemma OnlyDash(a: string, b: string, i: nat)
    requires '-' !in a && '-' !in b && i < |a + "-" + b|
    ensures (a + "-" + b)[i] == '-' <==> i == |a|
  {
    assert (a + "-" + b)[i] == if i < |a| then a[i] else if i == |a| then '-' else b[i - |a| - 1];
  }

  lemma OnlySplit(a: string, b: string, x: string, y: string)
    requires '-' !in a && '-' !in b && a + "-" + b == x + "-" + y
    ensures x == a && y == b
  {
    var s, t := a + "-" + b, x + "-" + y;
    assert t[|x|] == '-';
    OnlyDash(a, b, |x|);
    assert s[..|a|] == a && t[..|x|] == x && s[|a| + 1..] == b && t[|x| + 1..] == y;
  }

  lemma SharedKeyWithinCgroup(c: CommandContext, d: CommandContext)
    requires c.cgroupPath == d.cgroupPath && UniqueString(c) == UniqueString(d)
    ensures c.uid == d.uid && c.gid == d.gid && AfterGid(c) == AfterGid(d)
  {
    hide AfterGid, CutInt;
    CancelPrefix(c.cgroupPath + "-", AfterCgroup(c), AfterCgroup(d));
    CutNumber(c.uid, AfterUid(c));
    CutNumber(d.uid, AfterUid(d));
    CutNumber(c.gid, AfterGid(c));
    CutNumber(d.gid, AfterGid(d));
  }

  /** Within one cgroup, whatever its path looks like, the command name is what matters. */
  lemma KeyDeterminesFieldsWithinCgroup(c: CommandContext, d: CommandContext)
    requires c.cgroupPath == d.cgroupPath && '-' !in c.commandName && '-' !in d.commandName
    ensures UniqueString(c) == UniqueString(d) <==> KeyFields(c) == KeyFields(d)
  {
    if UniqueString(c) == UniqueString(d) {
      SharedKeyWithinCgroup(c, d);
      Decimal.JoinIsInjective(c.commandName, c.commandPath, d.commandName, d.commandPath, '-');
    }
  }

  // ----- a context that prints the same key -----

  lemma Assoc3(p: string, a: string, b: string)
    ensures (p + "-" + a) + "-" + b == p + "-" + (a + "-" + b)
  {
  }

  lemma SplitDash(s: string, i: nat)
    requires i < |s| && s[i] == '-'
    ensures s == s[..i] + "-" + s[i + 1..]
  {
  }

  /** Every '-' in a command name lets two different commands share a key. */
  lemma DashesCollide(c: CommandContext, a: string, b: string, p: string)
    ensures var x := c.(commandName := a + "-" + b, commandPath := p);
            var y := c.(commandName := a, commandPath := b + "-" + p);
            UniqueString(x) == UniqueString(y) && KeyFields(x) != KeyFields(y)
  {
    Assoc3(a, b, p);
    assert |a + "-" + b| > |a|;
  }

  lemma NameDashCollides(c: CommandContext) returns (d: CommandContext)
    requires '-' in c.commandName || '-' in c.commandPath
    ensures UniqueString(d) == UniqueString(c) && KeyFields(d) != KeyFields(c) && d.cgroupPath == c.cgroupPath
  {
    var name, path := c.commandName, c.commandPath;
    if i :| 0 <= i < |name| && name[i] == '-' {
      SplitDash(name, i);
      DashesCollide(c, name[..i], name[i + 1..], path);
      d := c.(commandName := name[..i], commandPath := name[i + 1..] + "-" + path);
    } else {
      var i :| 0 <= i < |path| && path[i] == '-';
      SplitDash(path, i);
      DashesCollide(c, name, path[..i], path[i + 1..]);
      d := c.(commandName := name + "-" + path[..i], commandPath := path[i + 1..]);
    }
  }

  /** The sign of a negative user ID may just as well end the cgroup path. */
  lemma NegativeUidCollides(c: CommandContext) returns (d: CommandContext)
    requires c.uid < 0
    ensures UniqueString(d) == UniqueString(c) && KeyFields(d) != KeyFields(c)
  {
    d := c.(cgroupPath := c.cgroupPath + "-", uid := -c.uid);
    assert AfterCgroup(c) == "-" + AfterCgroup(d);
    assert |d.cgroupPath| > |c.cgroupPath|;
  }

  predicate IsInt(s: string) {
    Decimal.Int(Decimal.ParseInt(s)) == s
  }

  /** `rest` reads as a user ID and what may follow it, in front of the given user ID. */
  predicate ReadsAsIds(rest: string, uid: int) {
    if rest == "" then uid > 0 else
      var i := NumberEnd(rest);
      IsInt(rest[..i]) && (i == |rest| || ReadsAsGid(rest[i + 1..], uid))
  }

  /** `rest` starts with a whole number, or the sign of one whose digits are those of `uid`. */
  predicate ReadsAsGid(rest: string, uid: int) {
    if rest == "" then uid > 0 else IsInt(rest[..NumberEnd(rest)])
  }

  lemma NumberAndRest(s: string)
    requires NumberEnd(s) < |s|
    ensures s == s[..NumberEnd(s)] + "-" + s[NumberEnd(s) + 1..]
  {
    SplitDash(s, NumberEnd(s));
  }

  /** Each '-' of a cgroup path that is followed by what reads as IDs lets the path end there. */
  lemma CgroupDashCollides(c: CommandContext, i: nat) returns (d: CommandContext)
    requires c.uid >= 0 && i < |c.cgroupPath| && c.cgroupPath[i] == '-' && ReadsAsIds(c.cgroupPath[i + 1..], c.uid)
    ensures UniqueString(d) == UniqueString(c) && d.cgroupPath == c.cgroupPath[..i]
  {
    var p, rest, r1 := c.cgroupPath[..i], c.cgroupPath[i + 1..], AfterCgroup(c);
    SplitDash(c.cgroupPath, i);
    Assoc3(p, rest, r1);
    d := OtherReading(c, p, rest);
  }

  /** Another context for the text after the shortened cgroup path. */
  lemma OtherReading(c: CommandContext, p: string, rest: string) returns (d: CommandContext)
    requires c.uid >= 0 && ReadsAsIds(rest, c.uid)
    ensures d.cgroupPath == p && AfterCgroup(d) == rest + "-" + AfterCgroup(c)
  {
    var e := NumberEnd(rest);
    var u := Decimal.ParseInt(rest[..e]);
    if rest == "" {
      d := c.(cgroupPath := p, uid := -c.uid);
    } else if e == |rest| {
      assert rest[..e] == rest;
      d := CommandContext(u, c.uid, c.pid, Decimal.Int(c.gid), AfterGid(c), p);
    } else {
      var more := rest[e + 1..];
      NumberAndRest(rest);
      Assoc3(rest[..e], more, AfterCgroup(c));
      d := OtherGid(c, p, u, more);
    }
  }

  lemma OtherGid(c: CommandContext, p: string, u: int, more: string) returns (d: CommandContext)
    requires c.uid >= 0 && ReadsAsGid(more, c.uid)
    ensures d.cgroupPath == p && d.uid == u && AfterUid(d) == more + "-" + AfterCgroup(c)
  {
    var e := NumberEnd(more);
    var g := Decimal.ParseInt(more[..e]);
    if more == "" {
      d := CommandContext(u, -c.uid, c.pid, Decimal.Int(c.gid), AfterGid(c), p);
    } else if e == |more| {
      assert more[..e] == more;
      d := CommandContext(u, g, c.pid, Decimal.Int(c.uid), AfterUid(c), p);
    } else {
      NumberAndRest(more);
      d := CommandContext(u, g, c.pid, more[e + 1..], AfterCgroup(c), p);
      Assoc3(more[..e], more[e + 1..], AfterCgroup(c));
    }
  }

  /** Two literal contexts with dash-free command names that share a key. */
  lemma CgroupDashesCollide()
    ensures var x := CommandContext(2, 3, 0, "4", "p", "a-1");
            var y := CommandContext(1, 2, 0, "3", "4-p", "a");
            UniqueString(x) == UniqueString(y) && KeyFields(x) != KeyFields(y)
  {
    assert Decimal.Int(1) == "1" && Decimal.Int(2) == "2" && Decimal.Int(3) == "3";
    assert "a-1" + "-" + ("2" + "-" + ("3" + "-" + ("4" + "-" + "p"))) == "a-1-2-3-4-p";
    assert "a" + "-" + ("1" + "-" + ("2" + "-" + ("3" + "-" + "4-p"))) == "a-1-2-3-4-p";
  }

  // ----- nothing else does -----

  function Dashes(s: string): nat {
    if s == "" then 0 else Dashes(s[..|s| - 1]) + if s[|s| - 1] == '-' then 1 else 0
  }

  lemma {:induction false} DashesAppend(a: string, b: string)
    ensures Dashes(a + b) == Dashes(a) + Dashes(b)
  {
    if b == "" {
      assert a + b == a;
    } else {
      DashesAppend(a, b[..|b| - 1]);
      assert (a + b)[..|a + b| - 1] == a + b[..|b| - 1];
    }
  }

  lemma {:induction false} DashFree(s: string)
    ensures Dashes(s) == 0 <==> '-' !in s
  {
    if s == "" {
    } else {
      DashFree(s[..|s| - 1]);
      assert s == s[..|s| - 1] + [s[|s| - 1]];
    }
  }

  lemma DashesJoin(a: string, b: string)
    ensures Dashes(a + "-" + b) == Dashes(a) + 1 + Dashes(b)
  {
    DashesAppend(a + "-", b);
    DashesAppend(a, "-");
    assert "-"[..0] == "";
  }

  lemma DashesInt(n: int)
    ensures Dashes(Decimal.Int(n)) == if n < 0 then 1 else 0
  {
    var s := Decimal.Nat(if n < 0 then -n else n);
    DashFree(s);
    DashesAppend("-", s);
    assert "-"[..0] == "";
  }

  lemma DashesAfterCgroup(c: CommandContext)
    ensures Dashes(AfterCgroup(c)) == 3 + (if c.uid < 0 then 1 else 0) + (if c.gid < 0 then 1 else 0)
                                        + Dashes(c.commandName) + Dashes(c.commandPath)
  {
    DashesJoin(Decimal.Int(c.uid), AfterUid(c));
    DashesJoin(Decimal.Int(c.gid), AfterGid(c));
    DashesJoin(c.commandName, c.commandPath);
    DashesInt(c.uid);
    DashesInt(c.gid);
  }

  lemma SignFirst(n: int, rest: string)
    ensures var s := Decimal.Int(n) + "-" + rest; s != "" && (s[0] == '-' <==> n < 0)
  {
    IntDashes(n);
  }

  /** No cgroup path that goes on beyond that of `c` prints its key: there are too few dashes. */
  lemma NoLongerCgroup(c: CommandContext, x: string, d: CommandContext)
    requires '-' !in c.commandName && '-' !in c.commandPath && c.uid >= 0
    ensures AfterCgroup(c) != x + "-" + AfterCgroup(d)
  {
    SignFirst(c.gid, AfterGid(c));
    SignFirst(d.uid, AfterUid(d));
    if AfterCgroup(c) == x + "-" + AfterCgroup(d) {
      DashesAfterCgroup(c);
      DashesAfterCgroup(d);
      DashesJoin(x, AfterCgroup(d));
      DashFree(c.commandName);
      DashFree(c.commandPath);
      DashFree(x);
      IntDashes(c.uid);
      Decimal.JoinIsInjective(Decimal.Int(c.uid), AfterUid(c), x, AfterCgroup(d), '-');
      assert false;
    }
  }

  /** Two joins at a '-': where one left part is shorter, the other goes on after it with '-'. */
  lemma ShorterLeft(a: string, r: string, b: string, t: string)
    requires a + "-" + r == b + "-" + t && |b| < |a|
    ensures a[..|b|] == b && a[|b|] == '-' && t == a[|b| + 1..] + "-" + r
  {
    var s := a + "-" + r;
    assert s[..|b|] == b && s[|b|] == '-' && s[|b| + 1..] == t;
    assert s[|b| + 1..] == a[|b| + 1..] + "-" + r;
  }

  lemma NumberEndInside(rest: string, next: string)
    requires rest != ""
    ensures NumberEnd(rest + "-" + next) == NumberEnd(rest)
  {
    var s, from := rest + "-" + next, if rest[0] == '-' then 1 else 0;
    var i, j := Decimal.IndexFrom(rest, '-', from), Decimal.IndexFrom(s, '-', from);
    assert s[0] == rest[0] && s[|rest|] == '-';
    assert forall k :: 0 <= k < |rest| ==> s[k] == rest[k];
    assert s[i] == '-';
  }

  /** The '-' in front of `uid` is the sign of the number `n`. */
  lemma SignBeforeDigits(uid: int, tail: string, n: int, y: string)
    requires uid >= 0 && "-" + (Decimal.Int(uid) + "-" + tail) == Decimal.Int(n) + "-" + y
    ensures uid > 0
  {
    hide Decimal.Nat;
    var next := Decimal.Int(uid) + "-" + tail;
    SignFirst(n, y);
    assert ("-" + next)[0] == '-';
    CancelPrefix("-", Decimal.Nat(-n) + "-" + y, next);
    IntDashes(uid);
    Decimal.JoinIsInjective(Decimal.Nat(-n), y, Decimal.Nat(uid), tail, '-');
    Decimal.NatIsInjective(-n, uid);
  }

  /** The number `n` is all in `rest`. */
  lemma NumberInside(rest: string, next: string, n: int, y: string)
    requires rest != "" && rest + "-" + next == Decimal.Int(n) + "-" + y
    ensures NumberEnd(rest) == |Decimal.Int(n)| && rest[..NumberEnd(rest)] == Decimal.Int(n)
    ensures NumberEnd(rest) < |rest| ==> y == rest[NumberEnd(rest) + 1..] + "-" + next
  {
    var a, s := Decimal.Int(n), rest + "-" + next;
    NumberEndsThere(n, y);
    NumberEndInside(rest, next);
    assert rest[..|a|] == s[..|a|];
    if |a| < |rest| {
      assert s[|a| + 1..] == rest[|a| + 1..] + "-" + next;
    }
  }

  lemma ReadsAsNumber(rest: string, uid: int, tail: string, n: int, y: string)
    requires uid >= 0 && rest + "-" + (Decimal.Int(uid) + "-" + tail) == Decimal.Int(n) + "-" + y
    ensures ReadsAsGid(rest, uid)
  {
    if rest == "" {
      assert rest + "-" + (Decimal.Int(uid) + "-" + tail) == "-" + (Decimal.Int(uid) + "-" + tail);
      SignBeforeDigits(uid, tail, n, y);
    } else {
      NumberInside(rest, Decimal.Int(uid) + "-" + tail, n, y);
      Decimal.IntRoundTrip(n);
    }
  }

  lemma ReadsAsTwoNumbers(rest: string, uid: int, tail: string, n: int, m: int, y: string)
    requires uid >= 0
    requires rest + "-" + (Decimal.Int(uid) + "-" + tail) == Decimal.Int(n) + "-" + (Decimal.Int(m) + "-" + y)
    ensures ReadsAsIds(rest, uid)
  {
    ReadsAsNumber(rest, uid, tail, n, Decimal.Int(m) + "-" + y);
    if rest != "" {
      NumberInside(rest, Decimal.Int(uid) + "-" + tail, n, Decimal.Int(m) + "-" + y);
      if NumberEnd(rest) < |rest| {
        ReadsAsNumber(rest[NumberEnd(rest) + 1..], uid, tail, m, y);
      }
    }
  }

  /** A shorter cgroup path prints the key only if what it leaves out reads as IDs. */
  lemma ShorterCgroupReadsAsIds(c: CommandContext, d: CommandContext)
    requires c.uid >= 0 && UniqueString(d) == UniqueString(c) && |d.cgroupPath| < |c.cgroupPath|
    ensures c.cgroupPath[|d.cgroupPath|] == '-' && ReadsAsIds(c.cgroupPath[|d.cgroupPath| + 1..], c.uid)
  {
    hide ReadsAsIds, AfterGid;
    ShorterLeft(c.cgroupPath, AfterCgroup(c), d.cgroupPath, AfterCgroup(d));
    ReadsAsTwoNumbers(c.cgroupPath[|d.cgroupPath| + 1..], c.uid, AfterUid(c), d.uid, d.gid, AfterGid(d));
  }

  // ----- exactly when a context has its key to itself -----

  /** No other context shares the key of `c`. */
  ghost predicate OwnsKey(c: CommandContext) {
    forall d: CommandContext :: UniqueString(d) == UniqueString(c) ==> KeyFields(d) == KeyFields(c)
  }

  /** No other context of the cgroup does. */
  ghost predicate OwnsKeyInCgroup(c: CommandContext) {
    forall d: CommandContext :: d.cgroupPath == c.cgroupPath && UniqueString(d) == UniqueString(c) ==>
      KeyFields(d) == KeyFields(c)
  }

  predicate PlainCommand(c: CommandContext) {
    '-' !in c.commandName && '-' !in c.commandPath
  }

  /** No '-' of the cgroup path is followed by something that reads as IDs. */
  predicate PlainCgroup(c: CommandContext) {
    forall i :: 0 <= i < |c.cgroupPath| && c.cgroupPath[i] == '-' ==> !ReadsAsIds(c.cgroupPath[i + 1..], c.uid)
  }

  predicate StandsAlone(c: CommandContext) {
    PlainCommand(c) && c.uid >= 0 && PlainCgroup(c)
  }

  lemma PlainCommandOwnsInCgroup(c: CommandContext, d: CommandContext)
    requires PlainCommand(c) && d.cgroupPath == c.cgroupPath && UniqueString(d) == UniqueString(c)
    ensures KeyFields(d) == KeyFields(c)
  {
    SharedKeyWithinCgroup(c, d);
    OnlySplit(c.commandName, c.commandPath, d.commandName, d.commandPath);
  }

  /** Exactly when a command has its cache key to itself among all commands of its cgroup. */
  lemma OwnsKeyInCgroupIff(c: CommandContext)
    ensures OwnsKeyInCgroup(c) <==> PlainCommand(c)
  {
    if PlainCommand(c) {
      forall d: CommandContext | d.cgroupPath == c.cgroupPath && UniqueString(d) == UniqueString(c)
        ensures KeyFields(d) == KeyFields(c)
      {
        PlainCommandOwnsInCgroup(c, d);
      }
    } else {
      var d := NameDashCollides(c);
    }
  }

  lemma StandingAloneOwnsKey(c: CommandContext, d: CommandContext)
    requires StandsAlone(c) && UniqueString(d) == UniqueString(c)
    ensures KeyFields(d) == KeyFields(c)
  {
    if |d.cgroupPath| < |c.cgroupPath| {
      ShorterCgroupReadsAsIds(c, d);
      assert false;
    } else if |c.cgroupPath| < |d.cgroupPath| {
      ShorterLeft(d.cgroupPath, AfterCgroup(d), c.cgroupPath, AfterCgroup(c));
      NoLongerCgroup(c, d.cgroupPath[|c.cgroupPath| + 1..], d);
      assert false;
    } else {
      assert UniqueString(c)[..|c.cgroupPath|] == c.cgroupPath && UniqueString(d)[..|c.cgroupPath|] == d.cgroupPath;
      PlainCommandOwnsInCgroup(c, d);
    }
  }

  /** Exactly when a context has its cache key to itself among all contexts of all cgroups. */
  lemma OwnsKeyIff(c: CommandContext)
    ensures OwnsKey(c) <==> StandsAlone(c)
  {
    if !PlainCommand(c) {
      var d := NameDashCollides(c);
    } else if c.uid < 0 {
      var d := NegativeUidCollides(c);
    } else if !PlainCgroup(c) {
      var i :| 0 <= i < |c.cgroupPath| && c.cgroupPath[i] == '-' && ReadsAsIds(c.cgroupPath[i + 1..], c.uid);
      var d := CgroupDashCollides(c, i);
      assert |d.cgroupPath| < |c.cgroupPath|;
    } else {
      forall d: CommandContext | UniqueString(d) == UniqueString(c) ensures KeyFields(d) == KeyFields(c) {
        StandingAloneOwnsKey(c, d);
      }
    }
  }
}
