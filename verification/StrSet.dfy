/** The unhashed set of set.c: a singly linked list with the newest member first. */
module StrSet {

  /** A list cell; its link is set once, when the cell is put in front of the list. */
  class Member {
    const member: string
    const link: Member?
    ghost const contents: seq<string>

    constructor (member: string, link: Member?)
      ensures this.member == member && this.link == link
      ensures contents == [member] + Listed(link)
    {
      this.member := member;
      this.link := link;
      contents := [member] + Listed(link);
    }
  }

  ghost function Listed(p: Member?): seq<string> {
    if p == null then [] else p.contents
  }

  /** The cells behind p hold exactly its contents. */
  ghost predicate Linked(p: Member?)
    decreases |Listed(p)|
  {
    p != null ==> p.contents == [p.member] + Listed(p.link) && Linked(p.link)
  }

  class Set {
    var bucket: Member?
    var length: nat
    var timestamp: nat

    constructor ()
      ensures Valid() && Contents() == []
    {
      bucket, length, timestamp := null, 0, 0;
    }

    ghost function Contents(): seq<string>
      reads this
    {
      Listed(bucket)
    }

    ghost predicate Valid()
      reads this
    {
      Linked(bucket) && length == |Contents()|
    }

    /** Set_put: the new member comes first. */
    method Put(member: string)
      requires Valid()
      modifies this
      ensures Valid() && Contents() == [member] + old(Contents())
      ensures timestamp == old(timestamp) + 1
    {
      var p := new Member(member, bucket);
      bucket := p;
      length := length + 1;
      timestamp := timestamp + 1;
    }

    /** Set_get: walk i links; behind the end there is nothing. */
    method Get(i: nat) returns (p: Member?)
      requires Valid()
      ensures if i < length then p != null && p.member == Contents()[i] else p == null
    {
      p := bucket;
      for j := 0 to i
        invariant Linked(p)
        invariant Listed(p) == if j <= |Contents()| then Contents()[j..] else []
      {
        if p != null {
          p := p.link;
        }
      }
    }

    method Length() returns (n: nat)
      requires Valid()
      ensures n == |Contents()|
    {
      n := length;
    }

    method Clear()
      requires Valid()
      modifies this`bucket, this`length
      ensures Valid() && Contents() == []
    {
      if length > 0 {
        bucket := null;
        length := 0;
      }
    }
  }
}
