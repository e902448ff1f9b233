/** NUL-terminated strings: the pointer-walking loops of kernel/string.c, proved against
    sequences of bytes. Read-only strings are sequences starting at the pointer; the copying
    functions work in place on one memory array, with pointers as indices. */
module CString {
  import opened Bytes

  predicate Terminated(m: seq<byte>, p: nat) {
    exists q :: p <= q < |m| && m[q] == 0
  }

  /** Number of bytes before the first NUL. */
  function Len(m: seq<byte>, p: nat): (n: nat)
    requires Terminated(m, p)
    ensures p + n < |m| && m[p + n] == 0
    ensures forall i :: p <= i < p + n ==> m[i] != 0
    decreases |m| - p
  {
    if m[p] == 0 then 0 else 1 + Len(m, p + 1)
  }

  function Text(m: seq<byte>, p: nat): (s: seq<byte>)
    requires Terminated(m, p)
    ensures 0 !in s
  {
    m[p..p + Len(m, p)]
  }

  lemma TextStep(m: seq<byte>, p: nat)
    requires Terminated(m, p) && m[p] != 0
    ensures Terminated(m, p + 1) && Text(m, p) == [m[p]] + Text(m, p + 1)
  {
  }

  /** The text is determined by what it must be: bytes without NUL, followed by one. */
  lemma {:induction false} TextIs(m: seq<byte>, p: nat, s: seq<byte>)
    requires p + |s| < |m| && m[p..p + |s|] == s && m[p + |s|] == 0 && 0 !in s
    ensures Terminated(m, p) && Text(m, p) == s
  {
    forall j | p <= j < p + |s| ensures m[j] != 0 {
      assert m[j] == m[p..p + |s|][j - p] && s[j - p] in s;
    }
  }

  lemma TextOfLiteral(s: seq<byte>)
    requires 0 !in s
    ensures Terminated(s + [0], 0) && Text(s + [0], 0) == s
  {
    TextIs(s + [0], 0, s);
  }

  method StrLen(s: seq<byte>) returns (len: nat)
    requires Terminated(s, 0)
    ensures len == |Text(s, 0)|
  {
    len := 0;
    while s[len] != 0
      invariant len < |s| && Terminated(s, len)
      invariant len + Len(s, len) == Len(s, 0)
      decreases |s| - len
    {
      len := len + 1;
    }
  }

  // Comparison

  /** First difference of two strings, with the terminating NUL counted as a zero byte. */
  function Compare(a: seq<byte>, b: seq<byte>): int {
    if a == [] then (if b == [] then 0 else 0 - b[0])
    else if b == [] then a[0]
    else if a[0] != b[0] then a[0] - b[0]
    else Compare(a[1..], b[1..])
  }

  /** The strings agree before k, where a ends or has the smaller byte. */
  ghost predicate SmallerAt(a: seq<byte>, b: seq<byte>, k: nat) {
    k <= |a| && k < |b| && (forall i :: 0 <= i < k ==> a[i] == b[i]) && (k == |a| || a[k] < b[k])
  }

  /** Dictionary order on unsigned bytes. */
  ghost predicate Before(a: seq<byte>, b: seq<byte>) {
    exists k: nat :: SmallerAt(a, b, k)
  }

  /** The byte at k of a text followed by its NUL. */
  function ByteAt(s: seq<byte>, k: nat): byte { if k < |s| then s[k] else 0 }

  /** The result is the difference of the bytes where the strings first differ. */
  lemma {:induction false} CompareDifference(a: seq<byte>, b: seq<byte>, k: nat)
    requires k <= |a| && k <= |b| && a[..k] == b[..k] && ByteAt(a, k) != ByteAt(b, k)
    ensures Compare(a, b) == ByteAt(a, k) - ByteAt(b, k)
    decreases k
  {
    if k > 0 {
      assert a[0] == a[..k][0] == b[..k][0] == b[0];
      assert a[1..][..k - 1] == a[..k][1..] && b[1..][..k - 1] == b[..k][1..];
      CompareDifference(a[1..], b[1..], k - 1);
    }
  }

  ghost predicate NoNul(s: seq<byte>) { 0 !in s }

  lemma {:induction false} CompareSwap(a: seq<byte>, b: seq<byte>)
    ensures Compare(a, b) == -Compare(b, a)
  {
    if a != [] && b != [] { CompareSwap(a[1..], b[1..]); }
  }

  lemma {:induction false} CompareZero(a: seq<byte>, b: seq<byte>)
    requires NoNul(a) && NoNul(b)
    ensures Compare(a, b) == 0 <==> a == b
  {
    if a != [] && b != [] && a[0] == b[0] {
      CompareZero(a[1..], b[1..]);
      assert a == [a[0]] + a[1..] && b == [b[0]] + b[1..];
    } else {
      assert a != [] ==> a[0] in a;
      assert b != [] ==> b[0] in b;
    }
  }

  lemma {:induction false} CompareBefore(a: seq<byte>, b: seq<byte>)
    requires NoNul(a) && NoNul(b)
    ensures Compare(a, b) < 0 <==> Before(a, b)
  {
    if a != [] { assert a[0] in a; }
    if b != [] { assert b[0] in b; }
    if a != [] && b != [] && a[0] == b[0] {
      CompareBefore(a[1..], b[1..]);
      BeforeTails(a, b);
    } else if b != [] && (a == [] || a[0] < b[0]) {
      assert SmallerAt(a, b, 0);
    }
  }

  lemma SmallerAtTails(a: seq<byte>, b: seq<byte>, k: nat)
    requires a != [] && b != [] && a[0] == b[0]
    ensures SmallerAt(a, b, k + 1) <==> SmallerAt(a[1..], b[1..], k)
    ensures !SmallerAt(a, b, 0)
  {
    if SmallerAt(a[1..], b[1..], k) {
      forall i | 0 <= i < k + 1 ensures a[i] == b[i] {
        if i > 0 { assert a[1..][i - 1] == b[1..][i - 1]; }
      }
    }
  }

  lemma BeforeTails(a: seq<byte>, b: seq<byte>)
    requires a != [] && b != [] && a[0] == b[0]
    ensures Before(a, b) <==> Before(a[1..], b[1..])
  {
    if Before(a, b) {
      var k: nat :| SmallerAt(a, b, k);
      SmallerAtTails(a, b, 0);
      SmallerAtTails(a, b, k - 1);
    }
    if Before(a[1..], b[1..]) {
      var j: nat :| SmallerAt(a[1..], b[1..], j);
      SmallerAtTails(a, b, j);
    }
  }

  lemma {:induction false} CompareTransitive(a: seq<byte>, b: seq<byte>, c: seq<byte>)
    requires NoNul(a) && NoNul(b) && NoNul(c)
    requires Compare(a, b) <= 0 && Compare(b, c) <= 0
    ensures Compare(a, c) <= 0
    ensures Compare(a, b) < 0 || Compare(b, c) < 0 ==> Compare(a, c) < 0
  {
    if b != [] { assert b[0] in b; }
    if a != [] { assert a[0] in a; }
    if c != [] { assert c[0] in c; }
    if a != [] && b != [] && c != [] && a[0] == b[0] == c[0] {
      CompareTransitive(a[1..], b[1..], c[1..]);
    }
  }

  method StrCmp(s1: seq<byte>, s2: seq<byte>) returns (r: int)
    requires Terminated(s1, 0) && Terminated(s2, 0)
    ensures r == Compare(Text(s1, 0), Text(s2, 0))
  {
    var p := 0;
    while s1[p] != 0 && s1[p] == s2[p]
      invariant p < |s1| && p < |s2| && Terminated(s1, p) && Terminated(s2, p)
      invariant Compare(Text(s1, p), Text(s2, p)) == Compare(Text(s1, 0), Text(s2, 0))
      decreases |s1| - p
    {
      TextStep(s1, p);
      TextStep(s2, p);
      p := p + 1;
    }
    if s1[p] != 0 { TextStep(s1, p); }
    if s2[p] != 0 { TextStep(s2, p); }
    r := (s1[p] as int) - (s2[p] as int);
  }

  function Truncate(s: seq<byte>, n: nat): seq<byte> {
    if |s| <= n then s else s[..n]
  }

  /** Either a NUL or n bytes can be read from p on. */
  predicate Readable(m: seq<byte>, p: nat, n: nat) {
    p + n <= |m| || Terminated(m, p)
  }

  /** The text at p as far as its first n bytes. */
  function CutText(m: seq<byte>, p: nat, n: nat): (s: seq<byte>)
    requires Readable(m, p, n)
    ensures |s| <= n
    decreases n
  {
    if n == 0 || m[p] == 0 then [] else [m[p]] + CutText(m, p + 1, n - 1)
  }

  lemma {:induction false} CutTextIs(m: seq<byte>, p: nat, n: nat)
    requires Terminated(m, p)
    ensures CutText(m, p, n) == Truncate(Text(m, p), n)
    decreases n
  {
    if n != 0 && m[p] != 0 {
      TextStep(m, p);
      CutTextIs(m, p + 1, n - 1);
    }
  }

  method StrNCmp(s1: seq<byte>, s2: seq<byte>, n: nat) returns (r: int)
    requires Readable(s1, 0, n) && Readable(s2, 0, n)
    ensures r == Compare(CutText(s1, 0, n), CutText(s2, 0, n))
  {
    var p, left := 0, n;
    while left != 0 && s1[p] != 0 && s1[p] == s2[p]
      invariant Readable(s1, p, left) && Readable(s2, p, left)
      invariant Compare(CutText(s1, p, left), CutText(s2, p, left)) == Compare(CutText(s1, 0, n), CutText(s2, 0, n))
    {
      CompareTails(s1[p], CutText(s1, p + 1, left - 1), CutText(s2, p + 1, left - 1));
      p, left := p + 1, left - 1;
    }
    if left == 0 { return 0; }
    r := (s1[p] as int) - (s2[p] as int);
  }

  lemma CompareTails(c: byte, a: seq<byte>, b: seq<byte>)
    ensures Compare([c] + a, [c] + b) == Compare(a, b)
  {
    assert ([c] + a)[1..] == a && ([c] + b)[1..] == b;
  }

  /** strncmp(a, b, |prefix|) == 0 against a literal tests for that prefix. */
  lemma PrefixTest(s: seq<byte>, prefix: seq<byte>)
    requires NoNul(s) && NoNul(prefix)
    ensures Compare(Truncate(s, |prefix|), Truncate(prefix, |prefix|)) == 0 <==> prefix <= s
  {
    assert NoNul(Truncate(s, |prefix|)) by {
      forall c | c in Truncate(s, |prefix|) ensures c in s {}
    }
    CompareZero(Truncate(s, |prefix|), prefix);
  }

  // Copying

  /** A memory that agrees with s from p on and with m elsewhere. */
  lemma PatchIs(m: seq<byte>, p: nat, s: seq<byte>, r: seq<byte>)
    requires p + |s| <= |m| && |r| == |m|
    requires forall j :: p <= j < p + |s| ==> r[j] == s[j - p]
    requires forall j :: 0 <= j < |m| && !(p <= j < p + |s|) ==> r[j] == m[j]
    ensures r == Patch(m, p, s)
  {
  }

  predicate Disjoint(p: nat, n: nat, q: nat, m: nat) {
    p + n <= q || q + m <= p
  }

  /** The copying loop shared by strcpy and strcat. */
  method CopyThroughNul(mem: array<byte>, dest: nat, src: nat)
    requires Terminated(mem[..], src)
    requires dest + Len(mem[..], src) < mem.Length
    requires Disjoint(dest, Len(mem[..], src) + 1, src, Len(mem[..], src) + 1)
    modifies mem
    ensures mem[..] == Patch(old(mem[..]), dest, old(Text(mem[..], src)) + [0])
  {
    ghost var was := mem[..];
    ghost var n := Len(was, src);
    var i := 0;
    while true
      invariant i <= n
      invariant forall j :: dest <= j < dest + i ==> mem[j] == was[j - dest + src]
      invariant forall j :: 0 <= j < mem.Length && !(dest <= j < dest + i) ==> mem[j] == was[j]
      decreases n - i
    {
      var c := mem[src + i];
      mem[dest + i] := c;
      if c == 0 { break; }
      i := i + 1;
    }
    PatchIs(was, dest, Text(was, src) + [0], mem[..]);
  }

  method StrCpy(mem: array<byte>, dest: nat, src: nat) returns (r: nat)
    requires Terminated(mem[..], src)
    requires dest + Len(mem[..], src) < mem.Length
    requires Disjoint(dest, Len(mem[..], src) + 1, src, Len(mem[..], src) + 1)
    modifies mem
    ensures r == dest
    ensures mem[..] == Patch(old(mem[..]), dest, old(Text(mem[..], src)) + [0])
  {
    CopyThroughNul(mem, dest, src);
    r := dest;
  }

  /** Such a patch is the string s. */
  lemma {:induction false} CopiedText(m: seq<byte>, p: nat, s: seq<byte>)
    requires NoNul(s) && p + |s| < |m|
    ensures Terminated(Patch(m, p, s + [0]), p) && Text(Patch(m, p, s + [0]), p) == s
  {
    var r := Patch(m, p, s + [0]);
    assert r[p..p + |s|] == s;
    TextIs(r, p, s);
  }

  method StrCat(mem: array<byte>, dest: nat, src: nat) returns (r: nat)
    requires Terminated(mem[..], src) && Terminated(mem[..], dest)
    requires dest + Len(mem[..], dest) + Len(mem[..], src) < mem.Length
    requires Disjoint(dest, Len(mem[..], dest) + Len(mem[..], src) + 1, src, Len(mem[..], src) + 1)
    modifies mem
    ensures r == dest
    ensures mem[..] == Patch(old(mem[..]), dest + old(Len(mem[..], dest)), old(Text(mem[..], src)) + [0])
  {
    var n := LengthAt(mem, dest);
    CopyThroughNul(mem, dest + n, src);
    r := dest;
  }

  method LengthAt(mem: array<byte>, p: nat) returns (n: nat)
    requires Terminated(mem[..], p)
    ensures n == Len(mem[..], p)
  {
    SameText(mem[..], p);
    assert mem[p..] == mem[..][p..];
    n := StrLen(mem[p..]);
  }

  /** Writing s and a NUL over the terminator of a string appends s to it. */
  lemma {:induction false} AppendedText(m: seq<byte>, p: nat, s: seq<byte>)
    requires Terminated(m, p) && NoNul(s) && p + Len(m, p) + |s| < |m|
    ensures var r := Patch(m, p + Len(m, p), s + [0]);
            Terminated(r, p) && Text(r, p) == Text(m, p) + s
  {
    var t := Text(m, p) + s;
    var r := Patch(m, p + Len(m, p), s + [0]);
    assert r[p..p + |t|] == t;
    TextIs(r, p, t);
  }

  /** A string seen from its own pointer. */
  lemma {:induction false} SameText(m: seq<byte>, p: nat)
    requires p <= |m| && Terminated(m, p)
    ensures Terminated(m[p..], 0) && Text(m[p..], 0) == Text(m, p)
  {
    var n := Len(m, p);
    assert m[p..][n] == 0;
    assert m[p..][..n] == m[p..p + n];
    TextIs(m[p..], 0, Text(m, p));
  }

  /** How many bytes a copy of at most n looks at: up to and including the NUL. */
  function Looked(m: seq<byte>, p: nat, n: nat): nat
    requires Readable(m, p, n)
  {
    var len := |CutText(m, p, n)|;
    if len < n then len + 1 else n
  }

  lemma {:induction false} CutTextAt(m: seq<byte>, p: nat, n: nat, i: nat)
    requires Readable(m, p, n) && i <= |CutText(m, p, n)|
    ensures i < n ==> i < Looked(m, p, n) && p + i < |m| && (m[p + i] == 0 <==> i == |CutText(m, p, n)|)
    ensures i < |CutText(m, p, n)| ==> CutText(m, p, n)[i] == m[p + i]
    decreases n
  {
    if n > 0 && m[p] != 0 && i > 0 { CutTextAt(m, p + 1, n - 1, i - 1); }
  }

  /** Copies at most n bytes of the text and pads with zeros; no NUL when the text is longer. */
  method StrNCpy(mem: array<byte>, dest: nat, src: nat, n: nat) returns (r: nat)
    requires Readable(mem[..], src, n) && dest + n <= mem.Length
    requires Disjoint(dest, n, src, Looked(mem[..], src, n))
    modifies mem
    ensures r == dest
    ensures mem[..] == Patch(old(mem[..]), dest, Padded(old(CutText(mem[..], src, n)), n))
  {
    ghost var was := mem[..];
    ghost var text := CutText(was, src, n);
    hide CutText, Looked, Readable, Patch, Zeros;
    var i := CopyText(mem, dest, src, n);
    PatchTwice(was, dest, text, Zeros(n - |text|));
    FillZeros(mem, dest + i, n - i);
    r := dest;
  }

  /** The first loop: the text up to its NUL or its n-th byte. */
  method CopyText(mem: array<byte>, dest: nat, src: nat, n: nat) returns (i: nat)
    requires Readable(mem[..], src, n) && dest + n <= mem.Length
    requires Disjoint(dest, n, src, Looked(mem[..], src, n))
    modifies mem
    ensures i == old(|CutText(mem[..], src, n)|)
    ensures mem[..] == Patch(old(mem[..]), dest, old(CutText(mem[..], src, n)))
  {
    ghost var was := mem[..];
    ghost var text := CutText(was, src, n);
    CutTextAt(was, src, n, 0);
    hide CutText, Looked, Readable;
    i := 0;
    while i < n && mem[src + i] != 0
      invariant i <= |text|
      invariant i < n ==> i < Looked(was, src, n) && src + i < |was| && (was[src + i] == 0 <==> i == |text|)
      invariant forall j :: dest <= j < dest + i ==> mem[j] == text[j - dest]
      invariant forall j :: 0 <= j < mem.Length && !(dest <= j < dest + i) ==> mem[j] == was[j]
    {
      CutTextAt(was, src, n, i);
      mem[dest + i] := mem[src + i];
      i := i + 1;
      if i < n { CutTextAt(was, src, n, i); }
    }
    PatchIs(was, dest, text, mem[..]);
  }

  /** The second loop: zeros up to the n-th byte. */
  method FillZeros(mem: array<byte>, p: nat, n: nat)
    requires p + n <= mem.Length
    modifies mem
    ensures mem[..] == Patch(old(mem[..]), p, Zeros(n))
  {
    ghost var was := mem[..];
    var i := 0;
    while i < n
      invariant i <= n
      invariant forall j :: p <= j < p + i ==> mem[j] == 0
      invariant forall j :: 0 <= j < mem.Length && !(p <= j < p + i) ==> mem[j] == was[j]
    {
      mem[p + i] := 0;
      i := i + 1;
    }
    PatchIs(was, p, Zeros(n), mem[..]);
  }

  lemma PatchTwice(m: seq<byte>, p: nat, s: seq<byte>, t: seq<byte>)
    requires p + |s| + |t| <= |m|
    ensures Patch(Patch(m, p, s), p + |s|, t) == Patch(m, p, s + t)
  {
  }

  function Zeros(n: nat): (z: seq<byte>)
    ensures |z| == n && forall i :: 0 <= i < n ==> z[i] == 0
  {
    seq(n, _ => 0)
  }

  /** A text filled up with zeros to n bytes. */
  function Padded(s: seq<byte>, n: nat): (r: seq<byte>)
    requires |s| <= n
    ensures |r| == n && forall i :: 0 <= i < n ==> r[i] == if i < |s| then s[i] else 0
  {
    s + Zeros(n - |s|)
  }
}
