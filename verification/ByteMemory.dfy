/** Byte-wise comparison and overlapping moves. */
module ByteMemory {
  import opened Words

  /** memcmp over n bytes each: 0 for equal, else the order of the first difference. */
  method Compare(s1: seq<u8>, s2: seq<u8>) returns (r: int)
    requires |s1| == |s2|
    ensures r == 0 <==> s1 == s2
    ensures r != 0 ==> exists k :: (0 <= k < |s1| && s1[..k] == s2[..k] && s1[k] != s2[k]
                                    && r == if s1[k] < s2[k] then -1 else 1)
  {
    for i := 0 to |s1|
      invariant s1[..i] == s2[..i]
    {
      if s1[i] != s2[i] {
        return if s1[i] < s2[i] then -1 else 1;
      }
    }
    r := 0;
  }

  /** memmove of n bytes from src to dest in one buffer. The copy runs upwards when the source lies
      above the destination and downwards when it lies below, so it reads no byte it has overwritten. */
  method Move(a: array<u8>, dest: nat, src: nat, n: nat)
    requires dest + n <= a.Length && src + n <= a.Length
    modifies a
    ensures a[..] == old(a[..dest]) + old(a[src..src + n]) + old(a[dest + n..])
  {
    ghost var was := a[..];
    if src > dest {
      for i := 0 to n
        invariant a.Length == |was|
        invariant forall k :: dest <= k < dest + i ==> a[k] == was[k - dest + src]
        invariant forall k :: 0 <= k < a.Length && !(dest <= k < dest + i) ==> a[k] == was[k]
      {
        a[dest + i] := a[src + i];
      }
    } else if src < dest {
      for i := n downto 0
        invariant a.Length == |was|
        invariant forall k :: dest + i <= k < dest + n ==> a[k] == was[k - dest + src]
        invariant forall k :: 0 <= k < a.Length && !(dest + i <= k < dest + n) ==> a[k] == was[k]
      {
        a[dest + i] := a[src + i];
      }
    }
    Assembled(a[..], was, dest, src, n);
  }

  lemma Assembled(now: seq<u8>, was: seq<u8>, dest: nat, src: nat, n: nat)
    requires |now| == |was| && dest + n <= |was| && src + n <= |was|
    requires forall k :: dest <= k < dest + n ==> now[k] == was[k - dest + src]
    requires forall k :: 0 <= k < |was| && !(dest <= k < dest + n) ==> now[k] == was[k]
    ensures now == was[..dest] + was[src..src + n] + was[dest + n..]
  {
  }
}
