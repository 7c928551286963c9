/** Splitting an archive path into components (Parser::parsePath, cmd_c++/parser.cc). */
module PathSplit {
  import opened Meta
  import R = Records

  const SLASH: byte := 47

  /** Index of the first '/', or the length. */
  function FirstSlash(t: seq<byte>): (i: nat)
    ensures i <= |t|
    ensures i < |t| ==> t[i] == SLASH
    ensures forall j :: 0 <= j < i ==> t[j] != SLASH
  {
    if t == [] then 0
    else if t[0] == SLASH then 0
    else 1 + FirstSlash(t[1..])
  }

  predicate AllSlashes(t: seq<byte>) {
    forall i :: 0 <= i < |t| ==> t[i] == SLASH
  }

  predicate IsDots(c: Name) {
    c == R.DOT || c == R.DOTDOT
  }

  /** What the loop still has to push when `t` is left, None if it meets "." or "..". */
  function Components(t: seq<byte>): Option<seq<Name>>
    decreases |t|
  {
    if AllSlashes(t) then Some([])
    else
      var i := FirstSlash(t);
      if IsDots(t[..i]) then None
      else
        var rest := if i < |t| then Components(t[i + 1..]) else Some([]);
        if rest.None? then None else Some([t[..i]] + rest.value)
  }

  /** A leading '/' is dropped; a path without components is no path. */
  function SplitPath(t: seq<byte>): Option<Path> {
    var u := if t != [] && t[0] == SLASH then t[1..] else t;
    if Components(u) == Some([]) then None else Components(u)
  }

  function Prepend(names: seq<Name>, rest: Option<seq<Name>>): Option<seq<Name>> {
    if rest.None? then None else Some(names + rest.value)
  }

  lemma PrependNil(r: Option<seq<Name>>)
    ensures Prepend([], r) == r
  {
    assert r.Some? ==> [] + r.value == r.value;
  }

  lemma PrependTwice(a: seq<Name>, b: seq<Name>, r: Option<seq<Name>>)
    ensures Prepend(a, Prepend(b, r)) == Prepend(a + b, r)
  {
    assert r.Some? ==> a + (b + r.value) == a + b + r.value;
  }

  /** What is left once the component ending at `p` is taken. */
  function Left(t: seq<byte>, s: nat): Option<seq<Name>> {
    if s <= |t| then Components(t[s..]) else Some([])
  }

  /** One round of the outer loop: the component that starts at `s` ends at `p`, at the next '/' or at the end. */
  lemma ComponentStep(t: seq<byte>, s: nat, p: nat, q: nat)
    requires s <= p <= |t| && (p < |t| ==> t[p] == SLASH)
    requires forall j :: s <= j < p ==> t[j] != SLASH
    requires s <= q < |t| && t[q] != SLASH
    ensures IsDots(t[s..p]) ==> Left(t, s) == None
    ensures !IsDots(t[s..p]) ==> Left(t, s) == Prepend([t[s..p]], Left(t, p + 1))
  {
    var u := t[s..];
    assert u[q - s] != SLASH;
    assert FirstSlash(u) == p - s;
    assert u[..p - s] == t[s..p];
    assert p < |t| ==> u[p - s + 1..] == t[p + 1..];
  }

  /** Parser::parsePath. The buffer holds a C string; the '/' behind each component is overwritten with NUL. */
  method ParsePath(path: array<byte>, end: nat) returns (names: Option<Path>)
    requires end < path.Length && path[end] == 0 && (forall i :: 0 <= i < end ==> path[i] != 0)
    modifies path
    ensures names == SplitPath(old(path[..end]))
  {
    ghost var t := path[..end];
    var s := 0;
    if path[s] == SLASH { s := s + 1; }
    SplitTail(t, s);
    names := PushComponents(path, end, s);
    if names == Some([]) {
      names := None;
    }
  }

  lemma SplitTail(t: seq<byte>, s: nat)
    requires s == if t != [] && t[0] == SLASH then 1 else 0
    ensures SplitPath(t) == if Left(t, s) == Some([]) then None else Left(t, s)
  {
    assert s == 0 ==> t[0..] == t;
  }

  /** The outer loop: `s` starts a component, `p` looks for its first byte that is no '/' and then for its end. */
  method PushComponents(path: array<byte>, end: nat, start: nat) returns (names: Option<seq<Name>>)
    requires start <= end < path.Length && path[end] == 0 && (forall i :: 0 <= i < end ==> path[i] != 0)
    modifies path
    ensures names == Left(old(path[..end]), start)
  {
    hide Components, Left, Prepend, IsDots;
    ghost var t := path[..end];
    var list: seq<Name> := [];
    var s := start;
    var p := s;
    PrependNil(Left(t, s));
    while p < end
      invariant s <= end + 1 && p <= end && p + 1 >= s
      invariant forall i :: s <= i < end ==> path[i] == t[i]
      invariant path[end] == 0
      invariant forall i :: s <= i < p ==> t[i] == SLASH
      invariant p < s ==> path[p] == 0
      invariant Left(t, start) == Prepend(list, Left(t, s))
      decreases end + 1 - s, end - p
    {
      if path[p] == 0 || path[p] == SLASH {
        p := p + 1;
        continue;
      }
      ghost var q := p;
      p := s;
      while path[p] != SLASH && path[p] != 0
        invariant s <= p <= end
        invariant forall i :: s <= i < p ==> t[i] != SLASH
        decreases end - p
      {
        p := p + 1;
      }
      assert path[s..p] == t[s..p];
      path[p] := 0;
      var len := p - s;
      assert path[s..p] == t[s..p];
      ComponentStep(t, s, p, q);
      Dots(t[s..p]);
      if (len == 1 && path[s] == 46) || (len == 2 && path[s] == 46 && path[s + 1] == 46) {
        PrependNone(list);
        return None;
      }
      PrependTwice(list, [t[s..p]], Left(t, p + 1));
      list := list + [path[s..p]];
      s := s + len + 1;
    }
    LeftNone(t, s, list);
    names := Some(list);
  }

  lemma Dots(c: Name)
    ensures IsDots(c) <==> (|c| == 1 && c[0] == 46) || (|c| == 2 && c[0] == 46 && c[1] == 46)
  {
  }

  lemma PrependNone(list: seq<Name>)
    ensures Prepend(list, None) == None
  {
  }

  lemma LeftNone(t: seq<byte>, s: nat, list: seq<Name>)
    requires forall i :: s <= i < |t| ==> t[i] == SLASH
    ensures Prepend(list, Left(t, s)) == Some(list)
  {
    assert s <= |t| ==> AllSlashes(t[s..]);
    assert list + [] == list;
  }

  // ----- what the loop computes, said without the loop

  function TrimSlashes(t: seq<byte>): seq<byte> {
    if t != [] && t[|t| - 1] == 47 then TrimSlashes(t[..|t| - 1]) else t
  }

  /** Every '/' separates two components, which may be empty. */
  function SplitOn(t: seq<byte>): (r: seq<Name>)
    ensures |r| > 0
    decreases |t|
  {
    var i := FirstSlash(t);
    [t[..i]] + if i < |t| then SplitOn(t[i + 1..]) else []
  }

  lemma {:induction false} TrimProps(t: seq<byte>)
    ensures |TrimSlashes(t)| <= |t| && TrimSlashes(t) == t[..|TrimSlashes(t)|]
    ensures AllSlashes(t) <==> TrimSlashes(t) == []
    ensures forall i :: |TrimSlashes(t)| <= i < |t| ==> t[i] == SLASH
    ensures TrimSlashes(t) != [] ==> TrimSlashes(t)[|TrimSlashes(t)| - 1] != SLASH
  {
    if t != [] && t[|t| - 1] == SLASH {
      TrimProps(t[..|t| - 1]);
      var u := TrimSlashes(t);
      assert t[..|t| - 1][..|u|] == t[..|u|];
      assert AllSlashes(t[..|t| - 1]) <==> AllSlashes(t);
    }
  }

  lemma {:induction false} TrimIs(t: seq<byte>, n: nat)
    requires n <= |t| && (forall i :: n <= i < |t| ==> t[i] == SLASH)
    requires n > 0 ==> t[n - 1] != SLASH
    ensures TrimSlashes(t) == t[..n]
  {
    if n < |t| {
      TrimIs(t[..|t| - 1], n);
      assert t[..|t| - 1][..n] == t[..n];
    }
  }

  /** Trimming behind the first '/'. */
  lemma {:induction false} TrimTail(t: seq<byte>, i: nat)
    requires i < |t| && !AllSlashes(t) && i == FirstSlash(t)
    ensures var u := TrimSlashes(t);
            if AllSlashes(t[i + 1..]) then u == t[..i]
            else i < |u| && FirstSlash(u) == i && u[..i] == t[..i] && u[i + 1..] == TrimSlashes(t[i + 1..])
  {
    var tail := t[i + 1..];
    TrimProps(tail);
    var w := TrimSlashes(tail);
    var n := if w == [] then i else i + 1 + |w|;
    forall j | n <= j < |t|
      ensures t[j] == SLASH
    {
      assert j > i ==> t[j] == tail[j - (i + 1)];
    }
    assert w != [] ==> t[n - 1] == tail[|w| - 1];
    TrimIs(t, n);
  }

  lemma SplitOne(t: seq<byte>)
    requires SLASH !in t
    ensures SplitOn(t) == [t]
  {
    assert FirstSlash(t) == |t|;
    assert t[..|t|] == t;
  }

  predicate HasDots(names: seq<Name>) {
    exists c :: c in names && IsDots(c)
  }

  lemma HasDotsCons(c: Name, names: seq<Name>)
    ensures HasDots([c] + names) <==> IsDots(c) || HasDots(names)
  {
    assert c in [c] + names;
    assert forall d :: d in names ==> d in [c] + names;
  }

  function Meaning(u: seq<byte>): Option<seq<Name>> {
    if u == [] then Some([])
    else if HasDots(SplitOn(u)) then None
    else Some(SplitOn(u))
  }

  lemma {:induction false} SplitStep(u: seq<byte>, i: nat)
    requires i < |u| && i == FirstSlash(u)
    ensures SplitOn(u) == [u[..i]] + SplitOn(u[i + 1..])
  {
  }

  lemma {:induction false} MeaningSlash(u: seq<byte>, i: nat)
    requires i < |u| && i == FirstSlash(u) && i + 1 < |u|
    ensures Meaning(u) == if IsDots(u[..i]) then None else Prepend([u[..i]], Meaning(u[i + 1..]))
  {
    hide SplitOn, HasDots, FirstSlash;
    SplitStep(u, i);
    HasDotsCons(u[..i], SplitOn(u[i + 1..]));
  }

  lemma MeaningOne(u: seq<byte>)
    requires SLASH !in u && u != []
    ensures Meaning(u) == if IsDots(u) then None else Some([u])
  {
    SplitOne(u);
    HasDotsCons(u, []);
    assert [u] + [] == [u];
  }

  /**
    * On every input: trailing slashes go, every other '/' separates (so "a//b" has an empty middle component),
    * and a "." or ".." component makes the whole path invalid.
    */
  lemma {:induction false} ComponentsMeaning(t: seq<byte>)
    ensures Components(t) == Meaning(TrimSlashes(t))
    decreases |t|
  {
    hide Meaning, TrimSlashes, SplitOn;
    TrimProps(t);
    var u := TrimSlashes(t);
    if u == [] {
      MeaningNil();
    } else {
      var i := FirstSlash(t);
      assert !AllSlashes(t);
      if i < |t| {
        TrimTail(t, i);
        ComponentsMeaning(t[i + 1..]);
        TrimProps(t[i + 1..]);
        if AllSlashes(t[i + 1..]) {
          MeaningOne(u);
          assert [u] + [] == [u];
        } else {
          MeaningSlash(u, i);
        }
      } else {
        TrimIs(t, |t|);
        assert t[..|t|] == t;
        MeaningOne(t);
        assert [t] + [] == [t];
      }
    }
  }

  lemma MeaningNil()
    ensures Meaning([]) == Some([])
  {
  }

  /** Components joined by single slashes. */
  function Join(names: seq<Name>): seq<byte>
    requires |names| > 0
  {
    if |names| == 1 then names[0] else names[0] + [47] + Join(names[1..])
  }

  predicate Plain(c: Name) {
    c != [] && 47 !in c && !IsDots(c)
  }

  function Slashes(n: nat): seq<byte> {
    seq(n, _ => 47)
  }

  lemma SlashAt(c: Name, rest: seq<byte>)
    requires SLASH !in c && (rest == [] || rest[0] == SLASH)
    ensures FirstSlash(c + rest) == |c| && (c + rest)[..|c|] == c
    ensures rest != [] ==> (c + rest)[|c| + 1..] == rest[1..]
  {
    var t := c + rest;
    assert forall j :: 0 <= j < |c| ==> t[j] == c[j];
    assert rest != [] ==> t[|c|] == rest[0];
  }

  lemma ComponentsLast(c: Name, n: nat)
    requires Plain(c)
    ensures Components(c + Slashes(n)) == Some([c])
  {
    var t := c + Slashes(n);
    SlashAt(c, Slashes(n));
    assert t[0] == c[0] && c[0] in c;
    assert n > 0 ==> AllSlashes(t[|c| + 1..]);
    assert [c] + [] == [c];
  }

  lemma ComponentsCons(c: Name, tail: seq<byte>)
    requires Plain(c)
    ensures Components(c + [SLASH] + tail) == Prepend([c], Components(tail))
  {
    var t := c + [SLASH] + tail;
    assert t == c + ([SLASH] + tail);
    SlashAt(c, [SLASH] + tail);
    assert ([SLASH] + tail)[1..] == tail;
    assert t[0] == c[0] && c[0] in c;
  }

  lemma {:induction false} ComponentsJoin(names: seq<Name>, n: nat)
    requires |names| > 0 && forall c :: c in names ==> Plain(c)
    ensures Components(Join(names) + Slashes(n)) == Some(names)
    ensures Join(names) != [] && Join(names)[0] != SLASH
  {
    hide Components, Slashes;
    var c := names[0];
    assert c in names && c[0] in c;
    if |names| == 1 {
      ComponentsLast(c, n);
      assert names == [c];
    } else {
      ComponentsJoin(names[1..], n);
      var tail := Join(names[1..]) + Slashes(n);
      assert Join(names) + Slashes(n) == c + [SLASH] + tail;
      ComponentsCons(c, tail);
      assert names == [c] + names[1..];
    }
  }

  /** A leading '/' makes no difference to a text that starts with another byte. */
  lemma SplitLead(u: seq<byte>, lead: bool)
    requires u != [] && u[0] != SLASH
    ensures SplitPath((if lead then [SLASH] else []) + u) == if Components(u) == Some([]) then None else Components(u)
  {
    hide Components;
    if lead {
      assert ([SLASH] + u)[1..] == u;
    } else {
      assert [] + u == u;
    }
  }

  /** Splitting inverts joining, with an optional leading '/' and any number of trailing ones. */
  lemma SplitInvertsJoin(names: seq<Name>, lead: bool, n: nat)
    requires |names| > 0 && forall c :: c in names ==> Plain(c)
    ensures SplitPath((if lead then [47] else []) + Join(names) + Slashes(n)) == Some(names)
  {
    hide Components, Join, Slashes, SplitPath, Plain;
    ComponentsJoin(names, n);
    SplitLead(Join(names) + Slashes(n), lead);
    var l := if lead then [SLASH] else [];
    assert l + Join(names) + Slashes(n) == l + (Join(names) + Slashes(n));
  }
}
