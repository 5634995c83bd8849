/** The string data packets of strdata.c: values pushed, written, read back and popped. */
module StrData {
  import opened Params
  import opened StrSet

  const SEP: string := "||"

  /** What goes through the file descriptor: the length word and the characters. */
  datatype Wire = Wire(size: int, text: string)

  // ----- The text format -----

  function Joined(strs: seq<string>): string
    decreases |strs|
  {
    if strs == [] then "" else strs[0] + SEP + Joined(strs[1..])
  }

  ghost predicate SepAt(s: string, k: nat) {
    k + 2 <= |s| && s[k] == '|' && s[k + 1] == '|'
  }

  /** strstr(s, SEP): the first separator, or |s| when there is none. */
  function Find(s: string): (k: nat)
    ensures k <= |s|
    ensures k < |s| ==> SepAt(s, k)
    ensures forall j: nat :: j < k ==> !SepAt(s, j)
    decreases |s|
  {
    if |s| < 2 then |s|
    else if s[0] == '|' && s[1] == '|' then 0
    else
      var k := Find(s[1..]);
      assert forall j: nat :: 0 < j && SepAt(s, j) ==> SepAt(s[1..], j - 1);
      k + 1
  }

  function Split(s: string): seq<string>
    decreases |s|
  {
    var k := Find(s);
    if k == |s| then [] else [s[..k]] + Split(s[k + 2..])
  }

  /** A string that survives: it neither contains the separator nor ends in its character. */
  predicate Clean(s: string) {
    (s == "" || s[|s| - 1] != '|') && Find(s) == |s|
  }

  /** In plain words: no two bars next to each other, and none at the end. */
  lemma CleanMeans(s: string)
    ensures Clean(s) <==>
      (forall k: nat :: k + 1 < |s| && s[k] == '|' ==> s[k + 1] != '|') && (s != "" ==> s[|s| - 1] != '|')
  {
    var k := Find(s);
    if k < |s| {
      assert SepAt(s, k);
    } else {
      forall j: nat | j + 1 < |s| && s[j] == '|'
        ensures s[j + 1] != '|'
      {
        assert !SepAt(s, j);
      }
    }
  }

  /** The text: every string with two bars behind it. */
  lemma {:induction false} JoinedMeans(strs: seq<string>, s: string)
    ensures Joined([]) == "" && Joined(strs + [s]) == Joined(strs) + s + "||"
  {
    JoinedSnoc(strs, s);
  }

  /** In s || rest the first separator is the one behind s exactly for clean strings. */
  lemma CleanIffFound(s: string, rest: string)
    ensures Find(s + SEP + rest) == |s| <==> Clean(s)
    ensures Find(s + SEP + rest) <= |s|
  {
    var t := s + SEP + rest;
    var k := Find(t);
    assert SepAt(t, |s|);
    assert !(|s| < k);
    forall j: nat | j < |s|
      ensures SepAt(t, j) <==> SepAt(s, j) || (j + 1 == |s| && s[j] == '|')
    {
    }
    var m := Find(s);
    if Clean(s) {
      assert forall j: nat :: j < |s| ==> !SepAt(s, j);
    } else if m < |s| {
      assert SepAt(t, m);
    } else {
      assert SepAt(t, |s| - 1);
    }
  }

  lemma {:induction false} SplitOfClean(strs: seq<string>)
    requires forall i :: 0 <= i < |strs| ==> Clean(strs[i])
    ensures Split(Joined(strs)) == strs
    decreases |strs|
  {
    if strs != [] {
      var s, rest := strs[0], Joined(strs[1..]);
      SplitOfClean(strs[1..]);
      CleanIffFound(s, rest);
      var t := s + SEP + rest;
      assert t[..|s|] == s && t[|s| + 2..] == rest;
    }
  }

  lemma PieceIsClean(s: string)
    ensures Find(s) < |s| ==> Clean(s[..Find(s)])
  {
    var k := Find(s);
    if k < |s| {
      if k > 0 {
        assert !SepAt(s, k - 1);
      }
      var p := s[..k];
      assert Find(p) < |p| ==> SepAt(p, Find(p)) && SepAt(s, Find(p));
    }
  }

  /** Whatever is read, the pieces are clean. */
  lemma {:induction false} PiecesAreClean(s: string, i: nat)
    requires i < |Split(s)|
    ensures Clean(Split(s)[i])
    decreases |s|
  {
    PieceIsClean(s);
    if i > 0 {
      PiecesAreClean(s[Find(s) + 2..], i - 1);
    }
  }

  /** The wire format gives a list of strings back exactly when all of them are clean. */
  lemma SplitInvertsJoinedIff(strs: seq<string>)
    ensures Split(Joined(strs)) == strs <==> forall i :: 0 <= i < |strs| ==> Clean(strs[i])
  {
    if forall i :: 0 <= i < |strs| ==> Clean(strs[i]) {
      SplitOfClean(strs);
    } else {
      var i :| 0 <= i < |strs| && !Clean(strs[i]);
      if i < |Split(Joined(strs))| {
        PiecesAreClean(Joined(strs), i);
      }
    }
  }

  lemma NumbersAreClean(n: int)
    ensures Clean(Decimal(n))
  {
    var s := Decimal(n);
    assert s[|s| - 1] != '|';
    assert Find(s) < |s| ==> SepAt(s, Find(s));
  }

  lemma {:induction false} JoinedSnoc(strs: seq<string>, s: string)
    ensures Joined(strs + [s]) == Joined(strs) + s + SEP
    decreases |strs|
  {
    if strs == [] {
      assert [s][1..] == [];
    } else {
      assert (strs + [s])[1..] == strs[1..] + [s];
      JoinedSnoc(strs[1..], s);
    }
  }

  function Reversed(strs: seq<string>): (r: seq<string>)
    ensures |r| == |strs|
    decreases |strs|
  {
    if strs == [] then [] else [strs[|strs| - 1]] + Reversed(strs[..|strs| - 1])
  }

  lemma ReversedSnoc(strs: seq<string>, s: string)
    ensures Reversed(strs + [s]) == [s] + Reversed(strs)
  {
    assert (strs + [s])[..|strs|] == strs;
  }

  lemma {:induction false} ReversedCons(s: string, strs: seq<string>)
    ensures Reversed([s] + strs) == Reversed(strs) + [s]
    decreases |strs|
  {
    if strs == [] {
      assert [s] + strs == [] + [s];
    } else {
      var h, t := strs[..|strs| - 1], strs[|strs| - 1];
      ReversedSnoc([s] + h, t);
      ReversedSnoc(h, t);
      ReversedCons(s, h);
      assert strs == h + [t] && [s] + strs == ([s] + h) + [t];
      assert [t] + (Reversed(h) + [s]) == ([t] + Reversed(h)) + [s];
    }
  }

  lemma {:induction false} ReversedAt(strs: seq<string>, i: nat)
    requires i < |strs|
    ensures Reversed(strs)[i] == strs[|strs| - 1 - i]
    decreases |strs|
  {
    if i > 0 {
      ReversedAt(strs[..|strs| - 1], i - 1);
    }
  }

  /** Prepending on both sides of the wire puts the values back in push order. */
  lemma {:induction false} ReversedTwice(strs: seq<string>)
    ensures Reversed(Reversed(strs)) == strs
    decreases |strs|
  {
    if strs != [] {
      var h := strs[..|strs| - 1];
      ReversedTwice(h);
      ReversedCons(strs[|strs| - 1], Reversed(h));
    }
  }

  /** The part of a character buffer that C string functions see. */
  function UpToNul(s: string): (r: string)
    ensures |r| <= |s|
    decreases |s|
  {
    if s == [] || s[0] == '\0' then [] else [s[0]] + UpToNul(s[1..])
  }

  lemma {:induction false} NoNul(s: string)
    requires '\0' !in s
    ensures UpToNul(s) == s
    decreases |s|
  {
    if s != [] {
      NoNul(s[1..]);
    }
  }

  // ----- The object -----

  class Packet {
    const strings: Set
    var curReaded: nat

    constructor ()
      ensures Valid() && fresh(strings) && strings.Contents() == [] && curReaded == 0
    {
      strings := new Set();
      curReaded := 0;
    }

    ghost predicate Valid()
      reads strings
    {
      strings.Valid()
    }

    method Push(k: Kind, v: Value) returns (ok: int)
      requires Valid()
      modifies strings
      ensures Valid()
      ensures match ToString(k, v)
        case None => ok == 0 && strings.Contents() == old(strings.Contents())
        case Some(s) => ok == 1 && strings.Contents() == [s] + old(strings.Contents())
    {
      match ToString(k, v)
      case None =>
        ok := 0;
      case Some(s) =>
        strings.Put(s);
        ok := 1;
    }

    /** The next value, if there is one; the code is 0 in either case and -1 for an unknown type. */
    method Pop(k: Kind) returns (code: int, v: Option<Value>)
      requires Valid()
      modifies this`curReaded
      ensures curReaded == old(curReaded) + 1
      ensures v ==
        if old(curReaded) < |strings.Contents()| then FromString(k, strings.Contents()[old(curReaded)]) else None
      ensures code == if old(curReaded) < |strings.Contents()| && k.Other? then -1 else 0
    {
      var p := strings.Get(curReaded);
      curReaded := curReaded + 1;
      if p == null {
        return 0, None;
      }
      v := FromString(k, p.member);
      code := if v.None? then -1 else 0;
    }

    /** The list in its own order, newest first; the list is emptied. */
    method Write() returns (w: Wire)
      requires Valid()
      modifies strings
      ensures Valid() && strings.Contents() == []
      ensures w == Wire(|Joined(old(strings.Contents()))|, Joined(old(strings.Contents())))
    {
      hide Joined;
      ghost var all := strings.Contents();
      JoinedNone();
      var size := 0;
      var n := strings.Length();
      for i := 0 to n
        invariant strings.Valid() && strings.Contents() == all
        invariant size == |Joined(all[..i])|
      {
        var p := strings.Get(i);
        size := size + |p.member| + |SEP|;
        JoinedSnoc(all[..i], all[i]);
        assert all[..i + 1] == all[..i] + [all[i]];
      }
      var buffer := "";
      for i := 0 to n
        invariant strings.Valid() && strings.Contents() == all
        invariant buffer == Joined(all[..i])
      {
        var p := strings.Get(i);
        JoinedSnoc(all[..i], all[i]);
        assert all[..i + 1] == all[..i] + [all[i]];
        buffer := buffer + p.member + SEP;
      }
      assert all[..n] == all;
      strings.Clear();
      w := Wire(size, buffer);
    }

    method Clear()
      requires Valid()
      modifies this`curReaded, strings
      ensures Valid() && strings.Contents() == [] && curReaded == 0
    {
      strings.Clear();
      curReaded := 0;
    }

    /** The pieces between separators, each put in front of the list; the number of pieces. */
    method Read(w: Wire) returns (j: int)
      requires Valid() && (w.size < 0 || w.size == |w.text|)
      modifies this`curReaded, strings
      ensures Valid() && curReaded == 0
      ensures w.size < 0 ==> j == -1 && strings.Contents() == []
      ensures w.size >= 0 ==>
        strings.Contents() == Reversed(Split(UpToNul(w.text))) && j == |Split(UpToNul(w.text))|
    {
      hide Split, Reversed, UpToNul;
      EmptyLists();
      Clear();
      if w.size < 0 {
        return -1;
      }
      if w.size == 0 {
        return 0;
      }
      var rest := UpToNul(w.text);
      ghost var all, done: seq<string> := Split(rest), [];
      var n := 0;
      j := 0;
      while n < w.size
        invariant Valid() && curReaded == 0
        invariant done + Split(rest) == all && strings.Contents() == Reversed(done) && j == |done|
        invariant n + |rest| <= w.size
        decreases |rest|
      {
        var k := Find(rest);
        SplitStep(rest, done);
        if k == |rest| {
          break;
        }
        strings.Put(rest[..k]);
        done := done + [rest[..k]];
        n := n + k + |SEP|;
        rest := rest[k + 2..];
        j := j + 1;
      }
      SplitStep(rest, done);
    }
  }

  lemma JoinedNone()
    ensures Joined([]) == ""
  {
  }

  lemma EmptyLists()
    ensures Reversed([]) == [] && Split("") == [] && UpToNul("") == ""
  {
  }

  lemma SplitStep(rest: string, done: seq<string>)
    ensures var k := Find(rest);
      if k == |rest| then Split(rest) == [] && done + Split(rest) == done
      else done + Split(rest) == (done + [rest[..k]]) + Split(rest[k + 2..])
           && Reversed(done + [rest[..k]]) == [rest[..k]] + Reversed(done)
  {
    hide Reversed, Find;
    var k := Find(rest);
    if k < |rest| {
      ReversedSnoc(done, rest[..k]);
      ShiftOne(done, rest[..k], Split(rest[k + 2..]));
    }
  }

  lemma ShiftOne(a: seq<string>, s: string, b: seq<string>)
    ensures a + ([s] + b) == (a + [s]) + b
  {
  }

  // ----- End to end -----

  datatype Field = Field(kind: Kind, value: Value)

  ghost predicate AllHeld(fs: seq<Field>) {
    forall i :: 0 <= i < |fs| ==> Holds(fs[i].kind, fs[i].value)
  }

  function Strings(fs: seq<Field>): (strs: seq<string>)
    ensures |strs| == |fs|
    decreases |fs|
  {
    if fs == [] then []
    else
      var f := fs[|fs| - 1];
      Strings(fs[..|fs| - 1]) + [match ToString(f.kind, f.value) case None => "" case Some(s) => s]
  }

  lemma {:induction false} StringAt(fs: seq<Field>, i: nat)
    requires i < |fs| && AllHeld(fs)
    ensures ToString(fs[i].kind, fs[i].value) == Some(Strings(fs)[i])
    ensures Clean(Strings(fs)[i]) <==> (fs[i].value.Text? ==> Clean(fs[i].value.s))
    ensures '\0' !in Strings(fs)[i]
    decreases |fs|
  {
    if i < |fs| - 1 {
      StringAt(fs[..|fs| - 1], i);
    } else {
      var f := fs[i];
      TextRoundTrip(f.kind, f.value);
      if f.value.Num? {
        NumbersAreClean(f.value.n);
        NumbersAreClean(AsSigned(f.value.n));
      }
    }
  }

  lemma {:induction false} JoinedHasNoNul(strs: seq<string>)
    requires forall i :: 0 <= i < |strs| ==> '\0' !in strs[i]
    ensures '\0' !in Joined(strs)
    decreases |strs|
  {
    if strs != [] {
      JoinedHasNoNul(strs[1..]);
    }
  }

  method PushAll(p: Packet, fs: seq<Field>)
    requires p.Valid() && p.strings.Contents() == [] && AllHeld(fs)
    modifies p.strings
    ensures p.Valid() && p.strings.Contents() == Reversed(Strings(fs))
  {
    for i := 0 to |fs|
      invariant p.Valid() && p.strings.Contents() == Reversed(Strings(fs[..i]))
    {
      TextRoundTrip(fs[i].kind, fs[i].value);
      var _ := p.Push(fs[i].kind, fs[i].value);
      assert fs[..i + 1][..i] == fs[..i];
      ReversedSnoc(Strings(fs[..i]), Strings(fs[..i + 1])[i]);
    }
    assert fs[..|fs|] == fs;
  }

  method PopAll(p: Packet, fs: seq<Field>) returns (vs: seq<Option<Value>>)
    requires p.Valid() && p.curReaded == 0
    modifies p`curReaded
    ensures |vs| == |fs|
    ensures forall i :: 0 <= i < |fs| ==>
      vs[i] == if i < |p.strings.Contents()| then FromString(fs[i].kind, p.strings.Contents()[i]) else None
  {
    vs := [];
    for i := 0 to |fs|
      invariant p.curReaded == i == |vs|
      invariant forall j :: 0 <= j < i ==>
        vs[j] == if j < |p.strings.Contents()| then FromString(fs[j].kind, p.strings.Contents()[j]) else None
    {
      var code, v := p.Pop(fs[i].kind);
      vs := vs + [v];
    }
  }

  ghost predicate SameValues(vs: seq<Option<Value>>, fs: seq<Field>) {
    |vs| == |fs| && forall i :: 0 <= i < |fs| ==> vs[i] == Some(fs[i].value)
  }

  /** Push everything, write, read on the other side, pop everything: the values come out first in
      first out, and unchanged exactly when all the strings among them are clean. */
  method Transfer(fs: seq<Field>) returns (vs: seq<Option<Value>>)
    requires AllHeld(fs)
    ensures SameValues(vs, fs) <==> forall i :: 0 <= i < |fs| && fs[i].value.Text? ==> Clean(fs[i].value.s)
  {
    var sender := new Packet();
    var receiver := new Packet();
    PushAll(sender, fs);
    var w := sender.Write();
    var n := receiver.Read(w);
    vs := PopAll(receiver, fs);
    TransferDecided(fs, vs, receiver.strings.Contents());
  }

  lemma {:induction false} TransferDecided(fs: seq<Field>, vs: seq<Option<Value>>, strs: seq<string>)
    requires AllHeld(fs) && |vs| == |fs|
    requires strs == Reversed(Split(UpToNul(Joined(Reversed(Strings(fs))))))
    requires forall i :: 0 <= i < |fs| ==> vs[i] == if i < |strs| then FromString(fs[i].kind, strs[i]) else None
    ensures SameValues(vs, fs) <==> forall i :: 0 <= i < |fs| && fs[i].value.Text? ==> Clean(fs[i].value.s)
  {
    var sent := Reversed(Strings(fs));
    SentInReverse(fs);
    JoinedHasNoNul(sent);
    NoNul(Joined(sent));
    if i :| 0 <= i < |fs| && fs[i].value.Text? && !Clean(fs[i].value.s) {
      UncleanIsLost(fs, vs, Joined(sent), strs, i);
    } else {
      AllArrive(fs, vs, sent, strs);
    }
  }

  lemma {:induction false} SentInReverse(fs: seq<Field>)
    requires AllHeld(fs)
    ensures var sent := Reversed(Strings(fs));
      forall i :: 0 <= i < |sent| ==> '\0' !in sent[i] && sent[i] == Strings(fs)[|fs| - 1 - i]
  {
    hide Strings, ToString, Clean;
    var sent := Reversed(Strings(fs));
    forall i | 0 <= i < |sent|
      ensures '\0' !in sent[i] && sent[i] == Strings(fs)[|fs| - 1 - i]
    {
      ReversedAt(Strings(fs), i);
      StringAt(fs, |fs| - 1 - i);
    }
  }

  lemma {:induction false} UncleanIsLost(fs: seq<Field>, vs: seq<Option<Value>>, text: string, strs: seq<string>,
                                         i: nat)
    requires AllHeld(fs) && |vs| == |fs| && i < |fs|
    requires strs == Reversed(Split(text))
    requires vs[i] == if i < |strs| then FromString(fs[i].kind, strs[i]) else None
    requires fs[i].value.Text? && !Clean(fs[i].value.s)
    ensures vs[i] != Some(fs[i].value)
  {
    if i < |strs| {
      ReversedAt(Split(text), i);
      PiecesAreClean(text, |strs| - 1 - i);
    }
  }

  lemma {:induction false} AllArrive(fs: seq<Field>, vs: seq<Option<Value>>, sent: seq<string>, strs: seq<string>)
    requires AllHeld(fs) && |vs| == |fs| && sent == Reversed(Strings(fs))
    requires forall i :: 0 <= i < |sent| ==> sent[i] == Strings(fs)[|fs| - 1 - i]
    requires strs == Reversed(Split(Joined(sent)))
    requires forall i :: 0 <= i < |fs| ==> vs[i] == if i < |strs| then FromString(fs[i].kind, strs[i]) else None
    requires forall i :: 0 <= i < |fs| && fs[i].value.Text? ==> Clean(fs[i].value.s)
    ensures SameValues(vs, fs)
  {
    hide Split, Joined, Reversed, Strings, FromString, ToString, Clean, Holds;
    forall i | 0 <= i < |sent|
      ensures Clean(sent[i])
    {
      StringAt(fs, |fs| - 1 - i);
    }
    SplitOfClean(sent);
    ReversedTwice(Strings(fs));
    forall i | 0 <= i < |fs|
      ensures vs[i] == Some(fs[i].value)
    {
      StringAt(fs, i);
      TextRoundTrip(fs[i].kind, fs[i].value);
    }
  }
}
