/**
 * Path names: what the walk of fs/fs.c takes apart, slash by slash and name by name, against how a path is spelled.
 */
module PathNames {
  import opened Blocks
  import opened FsLayout
  import opened FileSystem

  /** A name a path can hold. */
  ghost predicate Plain(name: seq<byte>) { name != [] && SLASH !in name }

  function Slashes(k: nat): (s: seq<byte>)
    ensures |s| == k && forall i :: 0 <= i < k ==> s[i] == SLASH
  {
    seq(k, _ => SLASH)
  }

  /** gaps[0] slashes, the first name, gaps[1] slashes, the second name, and so on. */
  function Spell(names: seq<seq<byte>>, gaps: seq<nat>): seq<byte>
    requires |gaps| == |names| + 1
  {
    if names == [] then Slashes(gaps[0]) else Slashes(gaps[0]) + names[0] + Spell(names[1..], gaps[1..])
  }

  /** Names with at least one slash between any two; before the first and after the last there may be none. */
  ghost predicate Spells(names: seq<seq<byte>>, gaps: seq<nat>) {
    && |gaps| == |names| + 1 && (forall i :: 0 <= i < |names| ==> Plain(names[i]))
    && forall i :: 0 < i < |names| ==> gaps[i] > 0
  }

  lemma {:induction false} SkipSlashes(k: nat, s: seq<byte>)
    requires s == [] || s[0] != SLASH
    ensures SkipSlash(Slashes(k) + s) == s
  {
    if k == 0 {
      assert Slashes(0) + s == s;
    } else {
      assert (Slashes(k) + s)[1..] == Slashes(k - 1) + s;
      SkipSlashes(k - 1, s);
    }
  }

  lemma {:induction false} NameEnds(name: seq<byte>, s: seq<byte>)
    requires SLASH !in name && (s == [] || s[0] == SLASH)
    ensures NameLen(name + s) == |name|
  {
    if name == [] {
      assert name + s == s;
    } else {
      assert (name + s)[1..] == name[1..] + s;
      NameEnds(name[1..], s);
    }
  }

  /** Taking the first name off a path. */
  lemma TakeName(k: nat, name: seq<byte>, rest: seq<byte>)
    requires Plain(name) && (rest == [] || rest[0] == SLASH)
    ensures Components(Slashes(k) + (name + rest)) == [name] + Components(rest)
  {
    SkipSlashes(k, name + rest);
    NameEnds(name, rest);
    assert (name + rest)[..|name|] == name && (name + rest)[|name|..] == rest;
  }

  /** What follows a name starts with a slash, if there is anything. */
  lemma SlashNext(names: seq<seq<byte>>, gaps: seq<nat>)
    requires Spells(names, gaps) && (names == [] || gaps[0] > 0)
    ensures Spell(names, gaps) == [] || Spell(names, gaps)[0] == SLASH
  {}

  /** However it is spelled, a path of these names has these components. */
  lemma {:induction false} ComponentsOfSpelling(names: seq<seq<byte>>, gaps: seq<nat>)
    requires Spells(names, gaps)
    ensures Components(Spell(names, gaps)) == names
    decreases |names|
  {
    if names == [] {
      SkipSlashes(gaps[0], []);
      assert Slashes(gaps[0]) + [] == Slashes(gaps[0]);
    } else {
      var rest := Spell(names[1..], gaps[1..]);
      SlashNext(names[1..], gaps[1..]);
      ComponentsOfSpelling(names[1..], gaps[1..]);
      assert Spell(names, gaps) == Slashes(gaps[0]) + (names[0] + rest);
      TakeName(gaps[0], names[0], rest);
    }
  }

  lemma {:induction false} SlashesFirst(p: seq<byte>) returns (k: nat)
    ensures p == Slashes(k) + SkipSlash(p)
  {
    if p != [] && p[0] == SLASH {
      k := SlashesFirst(p[1..]);
      assert p == [p[0]] + p[1..];
      k := k + 1;
    } else {
      k := 0;
    }
  }

  lemma {:induction false} NameFirst(p: seq<byte>) returns (name: seq<byte>, rest: seq<byte>)
    ensures p == name + rest && SLASH !in name && (rest == [] || rest[0] == SLASH)
  {
    if p == [] || p[0] == SLASH {
      return [], p;
    }
    name, rest := NameFirst(p[1..]);
    assert p == [p[0]] + p[1..];
    name := [p[0]] + name;
  }

  lemma GapThere(names: seq<seq<byte>>, gaps: seq<nat>)
    requires Spells(names, gaps) && names != [] && Spell(names, gaps) != [] && Spell(names, gaps)[0] == SLASH
    ensures gaps[0] > 0
  {
    var rest := Spell(names[1..], gaps[1..]);
    assert Spell(names, gaps) == Slashes(gaps[0]) + (names[0] + rest);
  }

  lemma SpellMore(k: nat, name: seq<byte>, names: seq<seq<byte>>, gaps: seq<nat>)
    requires Plain(name) && Spells(names, gaps) && (Spell(names, gaps) == [] || Spell(names, gaps)[0] == SLASH)
    ensures Spells([name] + names, [k] + gaps)
    ensures Spell([name] + names, [k] + gaps) == Slashes(k) + (name + Spell(names, gaps))
  {
    if names != [] { GapThere(names, gaps); }
    assert ([name] + names)[1..] == names && ([k] + gaps)[1..] == gaps;
  }

  /** A path is only slashes, or slashes and a name before the rest of it. */
  lemma NameOff(p: seq<byte>) returns (k: nat, name: seq<byte>, rest: seq<byte>)
    ensures name == [] ==> p == Slashes(k)
    ensures name != [] ==> Plain(name) && p == Slashes(k) + (name + rest) && (rest == [] || rest[0] == SLASH)
  {
    k := SlashesFirst(p);
    name, rest := NameFirst(SkipSlash(p));
    if name == [] { assert Slashes(k) + [] == Slashes(k); }
  }

  /** Every path is a spelling of its components: none is empty or has a slash in it, and nothing else is left out. */
  lemma {:induction false} PathIsSpelled(p: seq<byte>) returns (gaps: seq<nat>)
    ensures Spells(Components(p), gaps) && Spell(Components(p), gaps) == p
    decreases |p|
  {
    var k, name, rest := NameOff(p);
    if name == [] {
      ComponentsOfSpelling([], [k]);
      return [k];
    }
    TakeName(k, name, rest);
    var more := PathIsSpelled(rest);
    SpellMore(k, name, Components(rest), more);
    gaps := [k] + more;
  }

  /** A slash-free name, with or without slashes around it, is a path of that one component. */
  lemma OneName(name: seq<byte>, before: nat, after: nat)
    requires Plain(name)
    ensures Components(Slashes(before) + name + Slashes(after)) == [name]
  {
    ComponentsOfSpelling([name], [before, after]);
    assert Spell([name], [before, after]) == Slashes(before) + name + Slashes(after);
  }

  /** A path leads to g exactly when it is only slashes and g the root, or slashes around the name of the entry g. */
  lemma ResolvesExactly(img: Image, p: seq<byte>, g: Node)
    ensures Resolves(img, Components(p), g) <==>
      || (g == Root && exists k: nat :: p == Slashes(k))
      || exists name: seq<byte>, a: nat, b: nat ::
           Plain(name) && Matches(img, g, name) && p == Slashes(a) + name + Slashes(b)
  {
    var gaps := PathIsSpelled(p);
    var c := Components(p);
    if |c| == 1 {
      assert p == Slashes(gaps[0]) + c[0] + Slashes(gaps[1]);
    }
    if k: nat :| p == Slashes(k) {
      ComponentsOfSpelling([], [k]);
    }
    if name: seq<byte>, a: nat, b: nat :|
      Plain(name) && Matches(img, g, name) && p == Slashes(a) + name + Slashes(b)
    {
      OneName(name, a, b);
    }
  }
}
