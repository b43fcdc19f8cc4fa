/** 8.3 names: to_fat_name, fat_name_match, and the text fat16_list_root builds. */
module FatNames {
  import opened Bytes
  import FatVolume

  const SPACE: byte := 0x20
  const DOT: byte := 0x2E

  predicate NulFree(s: seq<byte>) { forall i :: 0 <= i < |s| ==> s[i] != 0 }

  // The characters of a C string, without the terminating NUL.
  type CString = s: seq<byte> | NulFree(s)

  // Indexing as C does it: the NUL sits right after the last character.
  function At(s: CString, i: nat): byte
    requires i <= |s|
  {
    if i < |s| then s[i] else 0
  }

  function Upper(c: byte): byte { if 0x61 <= c <= 0x7A then c - 32 else c }

  function UpperAll(s: seq<byte>): seq<byte> { seq(|s|, i requires 0 <= i < |s| => Upper(s[i])) }

  function Pad(s: seq<byte>, n: nat): (r: seq<byte>)
    requires |s| <= n
    ensures |r| == n
  {
    s + seq(n - |s|, _ => SPACE)
  }

  // How many characters go into the 8-character base.
  function BaseLen(s: CString, from: nat): (b: nat)
    requires from <= |s| && from <= 8
    ensures from <= b <= 8 && b <= |s|
    ensures forall i :: from <= i < b ==> s[i] != DOT
    ensures b == 8 || b == |s| || s[b] == DOT
    decreases |s| - from
  {
    if from == |s| || s[from] == DOT || from == 8 then from else BaseLen(s, from + 1)
  }

  // The characters after the dot that ends the base, if a dot ends it.
  function Extension(s: CString): seq<byte> {
    var b := BaseLen(s, 0);
    if b < |s| && s[b] == DOT then Take(s[b + 1..], 3) else []
  }

  function FatName(s: CString): (n: FatVolume.Name) {
    var n := Pad(UpperAll(s[..BaseLen(s, 0)]), 8) + Pad(UpperAll(Extension(s)), 3);
    assert n[0] == if BaseLen(s, 0) == 0 then SPACE else Upper(s[0]);
    n
  }

  // One of the two copying loops of to_fat_name: upper-cased characters of `s` from `i`
  // into `a[j..end]`, up to the end of either (or, for the base, up to a dot).
  method CopyUpper(s: CString, i: nat, a: array<byte>, j: nat, end: nat, stopAtDot: bool) returns (i': nat)
    requires i <= |s| && j <= end <= a.Length
    modifies a
    ensures i <= i' <= |s| && i' - i <= end - j
    ensures forall k :: i <= k < i' && stopAtDot ==> s[k] != DOT
    ensures i' == |s| || i' - i == end - j || (stopAtDot && s[i'] == DOT)
    ensures a[..] == Over(old(a[..]), j, UpperAll(s[i..i']))
  {
    i' := i;
    while At(s, i') != 0 && !(stopAtDot && At(s, i') == DOT) && j + (i' - i) < end
      invariant i <= i' <= |s| && i' - i <= end - j
      invariant forall k :: i <= k < i' && stopAtDot ==> s[k] != DOT
      invariant forall k :: j <= k < j + (i' - i) ==> a[k] == Upper(s[i + (k - j)])
      invariant forall k :: 0 <= k < a.Length && !(j <= k < j + (i' - i)) ==> a[k] == old(a[k])
      decreases |s| - i'
    {
      a[j + (i' - i)] := Upper(At(s, i'));
      i' := i' + 1;
    }
  }

  lemma OverNothing(a: seq<byte>, at: nat)
    requires at <= |a|
    ensures UpperAll([]) == [] && Over(a, at, []) == a
  {
  }

  lemma FieldsMakeName(a: seq<byte>, off: nat, base: seq<byte>, ext: seq<byte>)
    requires off + 11 <= |a| && |base| <= 8 && |ext| <= 3
    ensures Over(Over(Over(a, off, seq(11, _ => SPACE)), off, base), off + 8, ext)
         == Over(a, off, Pad(base, 8) + Pad(ext, 3))
  {
  }

  lemma {:induction false} BaseLenIs(s: CString, from: nat, b: nat)
    requires from <= b <= 8 && b <= |s| && (forall i :: from <= i < b ==> s[i] != DOT)
    requires b == |s| || b == 8 || s[b] == DOT
    ensures BaseLen(s, from) == b
    decreases b - from
  {
    if from >= b {
    } else {
      BaseLenIs(s, from + 1, b);
    }
  }

  // Fills `a[off..off+11]`, which is how the directory slot's name field is written too.
  method ToFatName(s: CString, a: array<byte>, off: nat)
    requires off + 11 <= a.Length
    modifies a
    ensures a[..] == Over(old(a[..]), off, FatName(s))
  {
    Memset(a, off, SPACE, 11);
    var b := CopyUpper(s, 0, a, off, off + 8, true);
    BaseLenIs(s, 0, b);
    if At(s, b) == DOT {
      var i := CopyUpper(s, b + 1, a, off + 8, off + 11, false);
      assert s[b + 1..i] == Extension(s);
    } else {
      assert Extension(s) == [];
      OverNothing(a[..], off + 8);
    }
    assert s[0..b] == s[..b];
    FieldsMakeName(old(a[..]), off, UpperAll(s[..b]), UpperAll(Extension(s)));
  }

  method NameMatch(s: CString, name: seq<byte>) returns (yes: bool)
    requires |name| == 11
    ensures yes <==> name == FatName(s)
  {
    var buf := new byte[11](_ => 0);
    ToFatName(s, buf, 0);
    assert buf[..] == FatName(s);
    for i := 0 to 11
      invariant buf[..] == FatName(s)
      invariant buf[..i] == name[..i]
    {
      if buf[i] != name[i] { return false; }
    }
    return true;
  }
  // ----- The eleven bytes, one by one -----

  lemma FieldByte(t: seq<byte>, n: nat, i: nat)
    requires |t| <= n && i < n
    ensures Pad(UpperAll(t), n)[i] ==
      if i >= |t| then 0x20 else if 0x61 <= t[i] <= 0x7A then t[i] - 0x20 else t[i]
  {
  }

  // The base ends at the first dot among the first nine characters, at the ninth
  // character or at the end, and only a dot there starts an extension.  Small letters are
  // stored as capitals, all other characters as they are, blanks after both parts.
  lemma FatNameBytes(s: CString) returns (b: nat)
    ensures b <= 8 && b <= |s| && (forall i :: 0 <= i < b ==> s[i] != 0x2E)
    ensures b == 8 || b == |s| || s[b] == 0x2E
    ensures forall i :: 0 <= i < b ==> FatName(s)[i] == if 0x61 <= s[i] <= 0x7A then s[i] - 0x20 else s[i]
    ensures forall i :: b <= i < 8 ==> FatName(s)[i] == 0x20
    ensures b < |s| && s[b] == 0x2E ==>
      && (forall i :: b < i < |s| && i - b <= 3 ==>
            FatName(s)[7 + (i - b)] == if 0x61 <= s[i] <= 0x7A then s[i] - 0x20 else s[i])
      && (forall i :: 7 + (|s| - b) <= i < 11 && 8 <= i ==> FatName(s)[i] == 0x20)
    ensures b == |s| || s[b] != 0x2E ==> forall i :: 8 <= i < 11 ==> FatName(s)[i] == 0x20
  {
    b := BaseLen(s, 0);
    forall i | 0 <= i < 8 ensures FatName(s)[i] == Pad(UpperAll(s[..b]), 8)[i] { }
    forall i | 0 <= i < 8 { FieldByte(s[..b], 8, i); }
    forall i | 8 <= i < 11 ensures FatName(s)[i] == Pad(UpperAll(Extension(s)), 3)[i - 8] { }
    forall i | 0 <= i < 3 { FieldByte(Extension(s), 3, i); }
    if b < |s| && s[b] == DOT {
      assert |Extension(s)| == Min(3, |s| - b - 1);
      forall i | b < i < |s| && i - b <= 3 ensures Extension(s)[i - b - 1] == s[i] { }
    }
  }

  // Equal up to the case of ASCII letters.
  predicate SameButCase(s: seq<byte>, t: seq<byte>) {
    |s| == |t| && forall i :: 0 <= i < |s| ==>
      s[i] == t[i] || (0x41 <= s[i] <= 0x5A && t[i] == s[i] + 0x20) || (0x61 <= s[i] <= 0x7A && t[i] == s[i] - 0x20)
  }

  // Names that differ only in case name the same file.
  lemma CaseIsIgnored(s: CString, t: CString)
    requires SameButCase(s, t)
    ensures FatName(s) == FatName(t)
  {
    var b := BaseLen(s, 0);
    BaseLenIs(t, 0, b);
    assert UpperAll(s[..b]) == UpperAll(t[..b]);
    assert UpperAll(Extension(s)) == UpperAll(Extension(t));
  }

  // hello.txt is stored as HELLO, three blanks, TXT.
  lemma HelloTxt()
    ensures FatName([0x68, 0x65, 0x6C, 0x6C, 0x6F, 0x2E, 0x74, 0x78, 0x74])
         == [0x48, 0x45, 0x4C, 0x4C, 0x4F, 0x20, 0x20, 0x20, 0x54, 0x58, 0x54]
  {
    var s: CString := [0x68, 0x65, 0x6C, 0x6C, 0x6F, 0x2E, 0x74, 0x78, 0x74];
    BaseLenIs(s, 0, 5);
    var b := FatNameBytes(s);
    var n := FatName(s);
    assert b == 5;
    assert n[8] == 0x54 && n[9] == 0x58 && n[10] == 0x54 by {
      assert n[7 + (6 - b)] == 0x54 && n[7 + (7 - b)] == 0x58 && n[7 + (8 - b)] == 0x54;
    }
  }
  // ----- The listing's text for a name -----

  function NonSpace(s: seq<byte>): (r: seq<byte>)
    ensures |r| <= |s|
  {
    if s == [] then []
    else
      var n := |s| - 1;
      NonSpace(s[..n]) + (if s[n] == SPACE then [] else [s[n]])
  }

  function ListText(name: seq<byte>): (r: seq<byte>)
    requires |name| == 11
    ensures |r| <= 12   // with its NUL it fits the 13-byte buffer
  {
    NonSpace(name[..8]) + (if name[8] == SPACE then [] else [DOT] + NonSpace(name[8..]))
  }

  lemma {:induction false} NonSpacePrefix(s: seq<byte>, p: nat)
    requires p <= |s| && (forall i :: 0 <= i < p ==> s[i] != 0x20) && (forall i :: p <= i < |s| ==> s[i] == 0x20)
    ensures NonSpace(s) == s[..p]
  {
    if s == [] {
    } else {
      var n := |s| - 1;
      NonSpacePrefix(s[..n], if p <= n then p else n);
    }
  }

  // The characters before the padding of base and extension, with a dot between them when
  // there is an extension.
  lemma ListTextBytes(name: seq<byte>, p: nat, q: nat)
    requires |name| == 11 && p <= 8 && q <= 3
    requires (forall i :: 0 <= i < p ==> name[i] != 0x20) && (forall i :: p <= i < 8 ==> name[i] == 0x20)
    requires (forall i :: 8 <= i < 8 + q ==> name[i] != 0x20) && (forall i :: 8 + q <= i < 11 ==> name[i] == 0x20)
    ensures ListText(name) == name[..p] + (if q == 0 then [] else [0x2E] + name[8..8 + q])
  {
    NonSpacePrefix(name[..8], p);
    NonSpacePrefix(name[8..], q);
    assert name[..8][..p] == name[..p] && name[8..][..q] == name[8..8 + q];
  }

  // The two copying loops: the non-space characters of `name[from..to]` go after `text[..n]`.
  method CopyNonSpace(name: seq<byte>, from: nat, to: nat, text: array<byte>, n: nat) returns (n': nat)
    requires from <= to <= |name| && n + (to - from) <= text.Length
    modifies text
    ensures n' <= n + (to - from) && text[..n'] == old(text[..n]) + NonSpace(name[from..to])
  {
    n' := n;
    for j := from to to
      invariant n' <= n + (j - from) && text[..n'] == old(text[..n]) + NonSpace(name[from..j])
    {
      assert name[from..j + 1][..j - from] == name[from..j];
      if name[j] != SPACE {
        text[n'] := name[j];
        n' := n' + 1;
      }
    }
  }

  // `text[..n]` and the NUL after it, written into the caller's 13-byte buffer.
  method BuildText(name: seq<byte>, text: array<byte>) returns (n: nat)
    requires |name| == 11 && text.Length == 13
    modifies text
    ensures n <= 12 && text[..n] == ListText(name) && text[n] == 0
  {
    assert text[..0] == [];
    n := CopyNonSpace(name, 0, 8, text, 0);
    assert name[0..8] == name[..8];
    if name[8] != SPACE {
      text[n] := DOT;
      n := CopyNonSpace(name, 8, 11, text, n + 1);
      assert name[8..11] == name[8..];
    }
    text[n] := 0;
  }

  // Spaces only at the end.
  predicate SpacePadded(s: seq<byte>) {
    forall i, j :: 0 <= i < j < |s| && s[i] == 0x20 ==> s[j] == 0x20
  }

  // Base and extension padded, no small letter, no NUL, no dot in the base.
  predicate Canonical(name: seq<byte>) {
    && |name| == 11
    && SpacePadded(name[..8]) && SpacePadded(name[8..])
    && (forall i :: 0 <= i < 11 ==> name[i] != 0 && !(0x61 <= name[i] <= 0x7A))
    && (forall i :: 0 <= i < 8 ==> name[i] != 0x2E)
  }

  predicate SpaceFree(s: seq<byte>) { forall i :: 0 <= i < |s| ==> s[i] != 0x20 }

  // Every space-free input converts to a canonical name.
  lemma SpaceFreeIsCanonical(s: CString)
    requires SpaceFree(s)
    ensures Canonical(FatName(s))
  {
    var n := FatName(s);
    assert n[..8] == Pad(UpperAll(s[..BaseLen(s, 0)]), 8);
    assert n[8..] == Pad(UpperAll(Extension(s)), 3);
  }

  lemma {:induction false} NonSpaceOf(s: seq<byte>)
    ensures SpaceFree(NonSpace(s))
    ensures SpacePadded(s) ==> NonSpace(s) == s[..|NonSpace(s)|]
    ensures SpacePadded(s) ==> forall i :: |NonSpace(s)| <= i < |s| ==> s[i] == SPACE
  {
    if s == [] {
    } else {
      var n := |s| - 1;
      NonSpaceOf(s[..n]);
      assert s == s[..n] + [s[n]];
    }
  }

  lemma {:induction false} NonSpaceNulFree(s: seq<byte>)
    requires NulFree(s)
    ensures NulFree(NonSpace(s))
  {
    if s == [] {
    } else {
      NonSpaceNulFree(s[..|s| - 1]);
    }
  }

  lemma ListTextOf(name: seq<byte>)
    requires |name| == 11 && NulFree(name)
    ensures SpaceFree(ListText(name)) && NulFree(ListText(name))
  {
    NonSpaceOf(name[..8]);
    NonSpaceOf(name[8..]);
    NonSpaceNulFree(name[..8]);
    NonSpaceNulFree(name[8..]);
  }

  // The listed text leads back to the name exactly when the name is canonical.
  lemma ListedNameRoundTrips(name: seq<byte>)
    requires |name| == 11 && NulFree(name)
    ensures (ListTextOf(name); FatName(ListText(name)) == name) <==> Canonical(name)
  {
    ListTextOf(name);
    var t: CString := ListText(name);
    SpaceFreeIsCanonical(t);
    if Canonical(name) {
      NonSpaceOf(name[..8]);
      NonSpaceOf(name[8..]);
      var b := |NonSpace(name[..8])|;
      BaseLenIs(t, 0, b);
      assert forall i :: 0 <= i < 11 ==> UpperAll(name)[i] == Upper(name[i]);
      assert UpperAll(t[..b]) == name[..b];
      assert Pad(UpperAll(t[..b]), 8) == name[..8];
      if name[8] == SPACE {
        assert Pad(UpperAll(Extension(t)), 3) == name[8..];
      } else {
        assert t[b + 1..] == NonSpace(name[8..]);
        assert UpperAll(Extension(t)) == name[8..][..|Extension(t)|];
        assert Pad(UpperAll(Extension(t)), 3) == name[8..];
      }
    }
  }
}
