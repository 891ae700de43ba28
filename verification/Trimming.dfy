/** Trimming a byte string of the characters, one to three bytes long, that a recogniser accepts. */
module Trimming {
  import opened ByteStrings

  type Recogniser = Bytes -> bool

  /** The length of the accepted character `s` starts with, or 0. */
  function SpaceAtStart(space: Recogniser, s: Bytes): (n: nat)
    ensures n <= |s|
    ensures n > 0 ==> space(s[..n])
  {
    if |s| >= 1 && space(s[..1]) then 1
    else if |s| >= 2 && space(s[..2]) then 2
    else if |s| >= 3 && space(s[..3]) then 3
    else 0
  }

  /** The length of the accepted character `s` ends with, or 0. */
  function SpaceAtEnd(space: Recogniser, s: Bytes): (n: nat)
    ensures n <= |s|
    ensures n > 0 ==> space(s[|s| - n..])
  {
    if |s| >= 1 && space(s[|s| - 1..]) then 1
    else if |s| >= 2 && space(s[|s| - 2..]) then 2
    else if |s| >= 3 && space(s[|s| - 3..]) then 3
    else 0
  }

  function TrimStart(space: Recogniser, s: Bytes): (t: Bytes)
    ensures SpaceAtStart(space, t) == 0
    decreases |s|
  {
    if SpaceAtStart(space, s) == 0 then s else TrimStart(space, s[SpaceAtStart(space, s)..])
  }

  function TrimEnd(space: Recogniser, s: Bytes): (t: Bytes)
    ensures t <= s
    ensures SpaceAtEnd(space, t) == 0
    decreases |s|
  {
    if SpaceAtEnd(space, s) == 0 then s else TrimEnd(space, s[..|s| - SpaceAtEnd(space, s)])
  }

  function Trim(space: Recogniser, s: Bytes): Bytes { TrimEnd(space, TrimStart(space, s)) }

  lemma PrefixStartsAlike(space: Recogniser, t: Bytes, s: Bytes)
    requires t <= s && SpaceAtStart(space, s) == 0
    ensures SpaceAtStart(space, t) == 0
  {
    assert |t| >= 1 ==> t[..1] == s[..1];
    assert |t| >= 2 ==> t[..2] == s[..2];
    assert |t| >= 3 ==> t[..3] == s[..3];
  }

  /** A trimmed string has nothing left to trim, and one without accepted characters at its ends is trimmed. */
  lemma TrimmedIffNoSpaceAtEnds(space: Recogniser, s: Bytes)
    ensures Trim(space, Trim(space, s)) == Trim(space, s)
    ensures Trim(space, s) == s <==> SpaceAtStart(space, s) == SpaceAtEnd(space, s) == 0
  {
    PrefixStartsAlike(space, Trim(space, s), TrimStart(space, s));
  }

  function Join(cs: seq<Bytes>): Bytes { if cs == [] then [] else cs[0] + Join(cs[1..]) }

  predicate AllSpace(space: Recogniser, cs: seq<Bytes>) { forall i :: 0 <= i < |cs| ==> space(cs[i]) }

  lemma {:induction false} JoinAppend(cs: seq<Bytes>, c: Bytes)
    ensures Join(cs + [c]) == Join(cs) + c
  {
    if cs == [] {
      assert cs + [c] == [c] && [c][1..] == [] && c + [] == c && [] + c == c;
    } else {
      JoinAppend(cs[1..], c);
      assert (cs + [c])[1..] == cs[1..] + [c];
      assert cs[0] + (Join(cs[1..]) + c) == cs[0] + Join(cs[1..]) + c;
    }
  }

  lemma JoinPrepend(c: Bytes, cs: seq<Bytes>)
    ensures Join([c] + cs) == c + Join(cs)
  {
    assert ([c] + cs)[1..] == cs;
  }

  lemma AllSpacePrepend(space: Recogniser, c: Bytes, cs: seq<Bytes>)
    requires space(c) && AllSpace(space, cs)
    ensures AllSpace(space, [c] + cs)
  {}

  lemma AllSpaceAppend(space: Recogniser, cs: seq<Bytes>, c: Bytes)
    requires space(c) && AllSpace(space, cs)
    ensures AllSpace(space, cs + [c])
  {}

  lemma TrimStartStep(space: Recogniser, s: Bytes)
    requires SpaceAtStart(space, s) > 0
    ensures TrimStart(space, s) == TrimStart(space, s[SpaceAtStart(space, s)..])
  {}

  lemma TrimEndStep(space: Recogniser, s: Bytes)
    requires SpaceAtEnd(space, s) > 0
    ensures TrimEnd(space, s) == TrimEnd(space, s[..|s| - SpaceAtEnd(space, s)])
  {}

  lemma Regroup(s: Bytes, a: Bytes, b: Bytes, c: Bytes, bc: Bytes)
    requires bc == b + c
    ensures s == a + bc <==> s == (a + b) + c
  {
    assert a + (b + c) == (a + b) + c;
  }

  ghost predicate StartSplits(space: Recogniser, s: Bytes, pre: seq<Bytes>) {
    s == Join(pre) + TrimStart(space, s) && AllSpace(space, pre)
  }

  ghost predicate EndSplits(space: Recogniser, s: Bytes, post: seq<Bytes>) {
    s == TrimEnd(space, s) + Join(post) && AllSpace(space, post)
  }

  lemma TrimStartOnce(space: Recogniser, s: Bytes, c: Bytes, rest: Bytes, more: seq<Bytes>)
    requires s == c + rest && SpaceAtStart(space, s) == |c| > 0 && space(c)
    requires StartSplits(space, rest, more)
    ensures StartSplits(space, s, [c] + more)
  {
    assert s[|c|..] == rest;
    TrimStartStep(space, s);
    JoinPrepend(c, more);
    AllSpacePrepend(space, c, more);
    Regroup(s, c, Join(more), TrimStart(space, rest), rest);
  }

  lemma TrimEndOnce(space: Recogniser, s: Bytes, front: Bytes, c: Bytes, more: seq<Bytes>)
    requires s == front + c && SpaceAtEnd(space, s) == |c| > 0 && space(c)
    requires EndSplits(space, front, more)
    ensures EndSplits(space, s, more + [c])
  {
    assert s[..|s| - |c|] == front;
    TrimEndStep(space, s);
    JoinAppend(more, c);
    AllSpaceAppend(space, more, c);
    Regroup(s, TrimEnd(space, front), Join(more), c, Join(more) + c);
  }

  lemma NothingToTrim(space: Recogniser, s: Bytes)
    ensures SpaceAtStart(space, s) == 0 ==> StartSplits(space, s, [])
    ensures SpaceAtEnd(space, s) == 0 ==> EndSplits(space, s, [])
  {
    assert [] + s == s && s + [] == s;
  }

  lemma LastSpace(space: Recogniser, s: Bytes) returns (front: Bytes, c: Bytes)
    requires SpaceAtEnd(space, s) > 0
    ensures s == front + c && SpaceAtEnd(space, s) == |c| && space(c)
  {
    front, c := s[..|s| - SpaceAtEnd(space, s)], s[|s| - SpaceAtEnd(space, s)..];
  }

  lemma FirstSpace(space: Recogniser, s: Bytes) returns (c: Bytes, rest: Bytes)
    requires SpaceAtStart(space, s) > 0
    ensures s == c + rest && SpaceAtStart(space, s) == |c| && space(c)
  {
    c, rest := s[..SpaceAtStart(space, s)], s[SpaceAtStart(space, s)..];
  }

  lemma {:induction false} TrimStartDropsSpace(space: Recogniser, s: Bytes) returns (pre: seq<Bytes>)
    ensures StartSplits(space, s, pre)
    decreases |s|
  {
    if SpaceAtStart(space, s) == 0 {
      NothingToTrim(space, s);
      pre := [];
    } else {
      var c, rest := FirstSpace(space, s);
      var more := TrimStartDropsSpace(space, rest);
      TrimStartOnce(space, s, c, rest, more);
      pre := [c] + more;
    }
  }

  lemma {:induction false} TrimEndDropsSpace(space: Recogniser, s: Bytes) returns (post: seq<Bytes>)
    ensures EndSplits(space, s, post)
    decreases |s|
  {
    if SpaceAtEnd(space, s) == 0 {
      NothingToTrim(space, s);
      post := [];
    } else {
      var front, c := LastSpace(space, s);
      var more := TrimEndDropsSpace(space, front);
      TrimEndOnce(space, s, front, c, more);
      post := more + [c];
    }
  }

  /** Trimming drops accepted characters at both ends, all of them and nothing else. */
  lemma TrimDropsExactlySpace(space: Recogniser, s: Bytes) returns (pre: seq<Bytes>, post: seq<Bytes>)
    ensures s == Join(pre) + Trim(space, s) + Join(post) && AllSpace(space, pre) && AllSpace(space, post)
    ensures SpaceAtStart(space, Trim(space, s)) == SpaceAtEnd(space, Trim(space, s)) == 0
  {
    pre := TrimStartDropsSpace(space, s);
    post := TrimEndDropsSpace(space, TrimStart(space, s));
    PrefixStartsAlike(space, Trim(space, s), TrimStart(space, s));
    assert s == Join(pre) + (Trim(space, s) + Join(post));
  }
}
