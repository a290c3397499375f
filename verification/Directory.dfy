/** Directories: entries of 16 bytes, which dirlookup of src/fs.c scans and mkfs of src/mkfs.c writes. */
module Directory {
  import opened Blocks
  import opened FsModel
  import Mkfs

  const DIRENT := Mkfs.DIRENT
  const DIRSIZ := 14

  /** The character at k of a C string, which a NUL ends. */
  function CharAt(s: seq<Byte>, k: nat): Byte { if k < |s| then s[k] else 0 }

  /** The two names agree up to and including the end of s, or in all of DIRSIZ characters. */
  ghost predicate SameName(s: seq<Byte>, t: seq<Byte>) {
    forall k: nat | k < DIRSIZ && (forall j: nat | j < k :: CharAt(s, j) != 0) :: CharAt(s, k) == CharAt(t, k)
  }

  /** namecmp */
  method Namecmp(s: seq<Byte>, t: seq<Byte>) returns (same: bool)
    ensures same <==> SameName(s, t)
  {
    var k := 0;
    while k < DIRSIZ && CharAt(s, k) != 0 && CharAt(s, k) == CharAt(t, k)
      invariant 0 <= k <= DIRSIZ
      invariant forall j: nat | j < k :: CharAt(s, j) != 0 && CharAt(s, j) == CharAt(t, j)
    {
      k := k + 1;
    }
    same := k == DIRSIZ || CharAt(s, k) == CharAt(t, k);
    if !same {
      assert forall j: nat | j < k :: CharAt(s, j) != 0;
    }
  }

  /** The entry at off: its inode number, low byte first, and its name. */
  function Inum(c: seq<Byte>, off: nat): nat
    requires off + DIRENT <= |c|
  {
    (c[off] as int) + 256 * (c[off + 1] as int)
  }

  function Name(c: seq<Byte>, off: nat): seq<Byte>
    requires off + DIRENT <= |c|
  {
    c[off + 2..off + DIRENT]
  }

  /** Entry k is in use and has the name. */
  ghost predicate Matches(c: seq<Byte>, k: nat, name: seq<Byte>) {
    (k + 1) * DIRENT <= |c| && Inum(c, k * DIRENT) != 0 && SameName(name, Name(c, k * DIRENT))
  }

  /** What dirlookup comes to: an inode and where its entry is, nothing, or the panic for a directory that ends in the
      middle of an entry. */
  datatype Found = At(inum: nat, off: nat) | Missing | Panic

  /** dirlookup, on the contents of the directory: the first entry with the name. */
  method Dirlookup(c: seq<Byte>, name: seq<Byte>) returns (r: Found)
    ensures r.At? ==> r.off % DIRENT == 0 && r.off + DIRENT <= |c| && r.inum == Inum(c, r.off)
                      && Matches(c, r.off / DIRENT, name)
                      && forall k: nat | k < r.off / DIRENT :: !Matches(c, k, name)
    ensures !r.At? ==> forall k: nat :: !Matches(c, k, name)
    ensures !r.At? ==> (r == Missing <==> |c| % DIRENT == 0)
  {
    var off, k := 0, 0;
    while off < |c|
      invariant off == k * DIRENT <= |c|
      invariant forall j: nat | j < k :: !Matches(c, j, name)
    {
      if off + DIRENT > |c| {
        return Panic;
      }
      if Inum(c, off) != 0 {
        var same := Namecmp(name, Name(c, off));
        if same {
          return At(Inum(c, off), off);
        }
      }
      off, k := off + DIRENT, k + 1;
    }
    r := Missing;
  }

  // ---- the root directory of an image -----------------------------------------------------------------

  /** The names in the order in which mkfs enters them. */
  function RootName(names: seq<seq<Byte>>, k: nat): seq<Byte>
    requires k < |names| + 2
  {
    if k == 0 then [46] else if k == 1 then [46, 46] else Mkfs.Strip(names[k - 2])
  }

  lemma EntryFields(inum: nat, name: seq<Byte>)
    requires inum < 0x1_0000
    ensures Inum(Mkfs.Entry(inum, name), 0) == inum
    ensures forall j: nat | j < DIRSIZ :: CharAt(Name(Mkfs.Entry(inum, name), 0), j) == CharAt(name, j)
  {
  }

  lemma InPart(a: seq<Byte>, b: seq<Byte>, d: seq<Byte>, off: nat)
    requires off + DIRENT <= |b|
    ensures Inum(a + b + d, |a| + off) == Inum(b, off) && Name(a + b + d, |a| + off) == Name(b, off)
  {
    var c := a + b + d;
    assert forall i: nat | i < |b| :: c[|a| + i] == b[i];
  }

  /** Entry k of the root directory is that of file k - 2, whose inode is k; the first two are the root's own. */
  lemma {:induction false} RootEntry(names: seq<seq<Byte>>, k: nat)
    requires |names| < Mkfs.NINODES && k < |names| + 2
    ensures (k + 1) * DIRENT <= |Mkfs.Dir(names)|
    ensures Inum(Mkfs.Dir(names), k * DIRENT) == if k < 2 then Mkfs.ROOTINO else k
    ensures forall j: nat | j < DIRSIZ ::
              CharAt(Name(Mkfs.Dir(names), k * DIRENT), j) == CharAt(RootName(names, k), j)
  {
    hide Inum, Name, Mkfs.Entry, CharAt;
    if |names| == 0 {
      var dot, dots := Mkfs.Entry(Mkfs.ROOTINO, [46]), Mkfs.Entry(Mkfs.ROOTINO, [46, 46]);
      EntryFields(Mkfs.ROOTINO, [46]);
      EntryFields(Mkfs.ROOTINO, [46, 46]);
      InPart([], dot, dots, 0);
      InPart(dot, dots, [], 0);
      assert [] + dot + dots == dot + dots == dot + dots + [];
    } else {
      var n := |names| - 1;
      var dir, last := Mkfs.Dir(names[..n]), Mkfs.Entry(n + 2, Mkfs.Strip(names[n]));
      assert Mkfs.Dir(names) == dir + last == [] + dir + last == dir + last + [];
      if k < n + 2 {
        RootEntry(names[..n], k);
        InPart([], dir, last, k * DIRENT);
      } else {
        EntryFields(n + 2, Mkfs.Strip(names[n]));
        InPart(dir, last, [], 0);
      }
    }
  }

  lemma SameChars(name: seq<Byte>, s: seq<Byte>, t: seq<Byte>)
    requires forall j: nat | j < DIRSIZ :: CharAt(s, j) == CharAt(t, j)
    ensures SameName(name, s) <==> SameName(name, t)
  {
    hide CharAt;
  }

  /** Which entries of the root directory of an image, padded with zeros as mkfs leaves it, have a name: those that were
      made for it, and each has the inode it was made for. */
  lemma RootMatches(names: seq<seq<Byte>>, pad: nat, name: seq<Byte>, k: nat)
    requires |names| < Mkfs.NINODES
    ensures var c := Mkfs.Dir(names) + Zeros(pad);
            && (Matches(c, k, name) <==> k < |names| + 2 && SameName(name, RootName(names, k)))
            && (Matches(c, k, name) ==> Inum(c, k * DIRENT) == if k < 2 then Mkfs.ROOTINO else k)
  {
    if k < |names| + 2 {
      RootEntryAt(names, pad, k);
      hide Mkfs.Dir, Inum, Name, CharAt, SameName, RootName;
      SameChars(name, Name(Mkfs.Dir(names) + Zeros(pad), k * DIRENT), RootName(names, k));
    } else {
      hide Mkfs.Dir, Name, CharAt, SameName, RootName, Inum;
      if (k + 1) * DIRENT <= |Mkfs.Dir(names)| + pad {
        Padding(Mkfs.Dir(names), pad, k);
      }
    }
  }

  lemma RootEntryAt(names: seq<seq<Byte>>, pad: nat, k: nat)
    requires |names| < Mkfs.NINODES && k < |names| + 2
    ensures var c := Mkfs.Dir(names) + Zeros(pad);
            && (k + 1) * DIRENT <= |c| && Inum(c, k * DIRENT) == (if k < 2 then Mkfs.ROOTINO else k)
            && forall j: nat | j < DIRSIZ :: CharAt(Name(c, k * DIRENT), j) == CharAt(RootName(names, k), j)
  {
    hide Mkfs.Dir, Inum, Name, CharAt, RootName;
    var dir, zeros := Mkfs.Dir(names), Zeros(pad);
    RootEntry(names, k);
    InPart([], dir, zeros, k * DIRENT);
    assert [] + dir + zeros == dir + zeros;
  }

  lemma Padding(dir: seq<Byte>, pad: nat, k: nat)
    requires |dir| <= k * DIRENT && (k + 1) * DIRENT <= |dir| + pad
    ensures Inum(dir + Zeros(pad), k * DIRENT) == 0
  {
    var zeros, off := Zeros(pad), k * DIRENT;
    assert (dir + zeros)[off] == zeros[off - |dir|] && (dir + zeros)[off + 1] == zeros[off + 1 - |dir|];
  }

  /** mkfs and then dirlookup: a file is found under its name, without the underscore that the name may begin with, and
      with the inode it was given, exactly if no file before it, and neither "." nor "..", has that name in DIRSIZ
      characters; otherwise the first such entry is found. */
  method FindFile(names: seq<seq<Byte>>, pad: nat, i: nat, name: seq<Byte>) returns (r: Found)
    requires i < |names| < Mkfs.NINODES
    requires names[i] == [95] + name || (names[i] == name && (|name| == 0 || name[0] != 95))
    ensures r.At? && r.off / DIRENT <= i + 2 && SameName(name, RootName(names, r.off / DIRENT))
    ensures r.inum == (if r.off / DIRENT < 2 then Mkfs.ROOTINO else r.off / DIRENT)
    ensures r.inum == i + 2 <==> forall j: nat | j < i + 2 :: !SameName(name, RootName(names, j))
  {
    hide Mkfs.Dir, Inum, CharAt, Matches, SameName;
    r := Dirlookup(Mkfs.Dir(names) + Zeros(pad), name);
    OwnName(names, i, name);
    RootMatches(names, pad, name, i + 2);
    RootMatches(names, pad, name, r.off / DIRENT);
    forall j: nat | j < i + 2 ensures Matches(Mkfs.Dir(names) + Zeros(pad), j, name) <==>
                                      SameName(name, RootName(names, j)) {
      RootMatches(names, pad, name, j);
    }
  }

  lemma OwnName(names: seq<seq<Byte>>, i: nat, name: seq<Byte>)
    requires i < |names| && (names[i] == [95] + name || (names[i] == name && (|name| == 0 || name[0] != 95)))
    ensures SameName(name, RootName(names, i + 2))
  {
    SameSelf(name);
  }

  lemma SameSelf(name: seq<Byte>)
    ensures SameName(name, name)
  {
  }
}
