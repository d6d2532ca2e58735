/** TrimSpace: spaces at both ends of a NUL-terminated string are removed in place. */
module TrimSpace {
  import opened Ascii

  predicate IsSpace(c: char) {
    c == ' '
  }

  /** The buffer holds a string: there is a NUL in it. */
  ghost predicate IsString(s: seq<char>) {
    NUL in s
  }

  /** The characters before the first NUL. */
  function Text(s: seq<char>): (t: seq<char>)
    requires IsString(s)
    ensures |t| < |s| && t == s[..|t|] && s[|t|] == NUL && NUL !in t
  {
    if s[0] == NUL then [] else [s[0]] + Text(s[1..])
  }

  function TrimRight(t: seq<char>): seq<char> {
    if t != [] && IsSpace(t[|t| - 1]) then TrimRight(t[..|t| - 1]) else t
  }

  function TrimLeft(t: seq<char>): seq<char> {
    if t != [] && IsSpace(t[0]) then TrimLeft(t[1..]) else t
  }

  function Trim(t: seq<char>): seq<char> {
    TrimLeft(TrimRight(t))
  }

  ghost predicate AllSpaces(t: seq<char>) {
    forall i :: 0 <= i < |t| ==> IsSpace(t[i])
  }

  lemma {:induction false} TrimRightFacts(t: seq<char>)
    ensures var r := TrimRight(t);
            |r| <= |t| && r == t[..|r|] && AllSpaces(t[|r|..]) && (r != [] ==> !IsSpace(r[|r| - 1]))
  {
    if t != [] && IsSpace(t[|t| - 1]) {
      var init := t[..|t| - 1];
      TrimRightFacts(init);
      var n := |TrimRight(init)|;
      forall i | n <= i < |t| ensures IsSpace(t[i]) {
        assert i < |t| - 1 ==> t[i] == init[n..][i - n];
      }
      assert init[..n] == t[..n];
    }
  }

  lemma {:induction false} TrimLeftFacts(t: seq<char>)
    ensures var r := TrimLeft(t);
            |r| <= |t| && r == t[|t| - |r|..] && AllSpaces(t[..|t| - |r|]) && (r != [] ==> !IsSpace(r[0]))
  {
    if t != [] && IsSpace(t[0]) {
      TrimLeftFacts(t[1..]);
      var r := TrimLeft(t[1..]);
      var k := |t| - |r|;
      forall i | 0 <= i < k ensures IsSpace(t[i]) {
        assert i > 0 ==> t[i] == t[1..][..k - 1][i - 1];
      }
    }
  }

  /** The result is the stretch of the text between its outer blanks: only blanks go, and all of them. */
  lemma TrimFacts(t: seq<char>) returns (i: nat, j: nat)
    ensures i <= j <= |t| && Trim(t) == t[i..j]
    ensures forall k :: 0 <= k < i || j <= k < |t| ==> t[k] == ' '
    ensures i < j ==> t[i] != ' ' && t[j - 1] != ' '
  {
    TrimRightFacts(t);
    var r := TrimRight(t);
    TrimLeftFacts(r);
    j := |r|;
    i := j - |TrimLeft(r)|;
    forall k | 0 <= k < i ensures IsSpace(t[k]) {
      assert t[k] == r[..i][k];
    }
    forall k | j <= k < |t| ensures IsSpace(t[k]) {
      assert t[k] == t[j..][k - j];
    }
  }

  lemma TrimIdempotent(t: seq<char>)
    ensures Trim(Trim(t)) == Trim(t)
  {
    var i, j := TrimFacts(t);
  }

  lemma {:induction false} FirstNul(s: seq<char>, n: nat)
    requires IsString(s) && n <= |Text(s)| && s[n] == NUL
    ensures n == |Text(s)|
  {
  }

  /** strlen */
  method StrLen(a: array<char>, from: nat) returns (n: nat)
    requires from <= a.Length && IsString(a[from..])
    ensures n == |Text(a[from..])|
  {
    n := 0;
    while a[from + n] != NUL
      invariant n <= |Text(a[from..])|
      decreases |Text(a[from..])| - n
    {
      assert a[from + n] == a[from..][n] == Text(a[from..])[n];
      n := n + 1;
    }
    assert a[from + n] == a[from..][n];
    FirstNul(a[from..], n);
  }

  lemma {:induction false} TextIs(s: seq<char>, t: seq<char>)
    requires |t| < |s| && t == s[..|t|] && s[|t|] == NUL && NUL !in t
    ensures IsString(s) && Text(s) == t
  {
  }

  /** The first loop: cut the string behind its last character that is not a space. */
  method CutRight(a: array<char>, size: nat)
    requires size < a.Length && a[size] == NUL && NUL !in a[..size]
    modifies a
    ensures var r := TrimRight(old(a[..size]));
            |r| <= size && a[..|r|] == r && a[|r|] == NUL && NUL !in r
    ensures forall k :: size < k < a.Length ==> a[k] == old(a[k])
  {
    var end := size;
    ghost var t := a[..size];
    assert t[..size] == t;
    while end > 0 && IsSpace(a[end - 1])
      invariant 0 <= end <= size && TrimRight(t) == TrimRight(t[..end])
    {
      assert t[..end][..end - 1] == t[..end - 1];
      end := end - 1;
    }
    assert TrimRight(t) == t[..end];
    a[end] := NUL;
  }

  /** The second loop: how many spaces the string starts with. */
  method LeadingSpaces(a: array<char>, len: nat) returns (index: nat)
    requires len < a.Length && a[len] == NUL && NUL !in a[..len]
    ensures index <= len && a[index..len] == TrimLeft(a[..len])
  {
    index := 0;
    ghost var t := a[..len];
    while a[index] != NUL && IsSpace(a[index])
      invariant 0 <= index <= len && TrimLeft(t) == TrimLeft(t[index..])
      decreases len - index
    {
      assert index < len;
      assert t[index..][1..] == t[index + 1..];
      index := index + 1;
    }
    if index < len {
      assert a[index] == t[index];
    }
    assert t[index..] == a[index..len];
  }

  /** memmove(pcInput, strData, strlen(strData) + 1) */
  method MoveDown(a: array<char>, from: nat, count: nat)
    requires from + count <= a.Length
    modifies a
    ensures a[..count] == old(a[from..from + count])
    ensures forall k :: from + count <= k < a.Length ==> a[k] == old(a[k])
  {
    for i := 0 to count
      invariant forall k :: 0 <= k < i ==> a[k] == old(a[from + k])
      invariant forall k :: i <= k < a.Length ==> a[k] == old(a[k])
    {
      a[i] := a[from + i];
    }
  }

  method TrimSpace(a: array<char>) returns (n: nat)
    requires IsString(a[..])
    modifies a
    ensures IsString(a[..]) && Text(a[..]) == Trim(old(Text(a[..])))
    ensures n == |Text(a[..])|
    ensures forall k :: |old(Text(a[..]))| < k < a.Length ==> a[k] == old(a[k])
  {
    ghost var t := Text(a[..]);
    assert a[0..] == a[..];
    var size := StrLen(a, 0);
    if size == 0 {
      assert Trim([]) == [];
      return 0;
    }
    assert a[..size] == t;
    CutRight(a, size);
    ghost var r := TrimRight(t);
    TextIs(a[..], r);
    assert a[0..] == a[..];
    var len := StrLen(a, 0);
    var index := LeadingSpaces(a, len);
    MoveDown(a, index, len - index + 1);
    ghost var u := TrimLeft(r);
    assert a[..len - index + 1][len - index] == NUL;
    assert a[..len - index] == u;
    TextIs(a[..], u);
    n := len - index;
  }
}
