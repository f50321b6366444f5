/** Long file names: the assembly loop of find_fat_entry and the comparison that follows it
    (kernel/fs/FAT.c:163-194, libs/libc/stdlib/wcstombs.c, libs/libc/string/strcmp.c). */
module LongName {
  import opened Words

  type wchar = c: int | 0 <= c < 0x1_0000

  /** A long-name directory entry: 5 + 6 + 2 characters, or any other entry. */
  datatype DirEntry =
    | Long(order: byte, first: seq<wchar>, middle: seq<wchar>, last: seq<wchar>)
    | Other

  predicate WellFormed(e: DirEntry) {
    e.Long? ==> |e.first| == 5 && |e.middle| == 6 && |e.last| == 2
  }

  /** (order & 0x1F) - 1: which 13 characters of the name an entry holds. */
  function Part(e: DirEntry): int
    requires e.Long?
  {
    e.order % 32 - 1
  }

  function Chars(e: DirEntry): (cs: seq<wchar>)
    requires e.Long? && WellFormed(e)
    ensures |cs| == 13
  {
    e.first + e.middle + e.last
  }

  /** (char) c */
  function Low(c: wchar): byte {
    c % 256
  }

  /** order & 0x1F, and the low byte of a character. */
  lemma PartIsMask(order: nat, c: nat)
    ensures And(order, 0x1F) == order % 32 && And(c, 0xFF) == c % 256
  {
    hide And;
    assert Pow2(5) == 32 && Pow2(8) == 256;
    LowMask(order, 5);
    LowMask(c, 8);
  }

  // ----- the assembly loop -----

  /** The buffer with the converted characters written from `at` on. */
  function Put(buf: seq<byte>, at: nat, cs: seq<wchar>): (r: seq<byte>)
    requires at + |cs| <= |buf|
    ensures |r| == |buf|
    ensures forall q :: 0 <= q < |buf| ==> r[q] == if at <= q < at + |cs| then Low(cs[q - at]) else buf[q]
  {
    buf[..at] + seq<byte>(|cs|, i requires 0 <= i < |cs| => Low(cs[i])) + buf[at + |cs|..]
  }

  /** An entry whose characters fit into the 256-byte buffer. */
  predicate Fits(e: DirEntry) {
    e.Long? && WellFormed(e) && 0 <= Part(e) <= 18
  }

  function PutAll(buf: seq<byte>, run: seq<DirEntry>): (r: seq<byte>)
    requires |buf| == 256 && forall i :: 0 <= i < |run| ==> Fits(run[i])
    ensures |r| == 256
  {
    if run == [] then buf
    else
      var e := run[|run| - 1];
      assert Fits(e);
      Put(PutAll(buf, run[..|run| - 1]), Part(e) * 13, Chars(e))
  }

  /** wcatomba followed by memcpy into the name buffer. */
  method PutPiece(filename: array<byte>, at: nat, cs: seq<wchar>)
    requires at + |cs| <= filename.Length
    modifies filename
    ensures filename[..] == Put(old(filename[..]), at, cs)
  {
    for i := 0 to |cs|
      invariant forall q :: 0 <= q < filename.Length ==>
                  filename[q] == if at <= q < at + i then Low(cs[q - at]) else old(filename[q])
    {
      filename[at + i] := Low(cs[i]);
    }
  }

  lemma PutTwice(buf: seq<byte>, at: nat, cs: seq<wchar>, ds: seq<wchar>)
    requires at + |cs| + |ds| <= |buf|
    ensures Put(Put(buf, at, cs), at + |cs|, ds) == Put(buf, at, cs + ds)
  {}

  /** Storing the three pieces of an entry one after the other stores its 13 characters. */
  method PutEntry(filename: array<byte>, e: DirEntry)
    requires filename.Length == 256 && Fits(e)
    modifies filename
    ensures filename[..] == Put(old(filename[..]), Part(e) * 13, Chars(e))
  {
    hide Put;
    var at := Part(e) * 13;
    ghost var buf := filename[..];
    PutPiece(filename, at, e.first);
    PutPiece(filename, at + 5, e.middle);
    PutTwice(buf, at, e.first, e.middle);
    PutPiece(filename, at + 11, e.last);
    PutTwice(buf, at, e.first + e.middle, e.last);
  }

  lemma SplitLast<T>(s: seq<T>, i: nat, j: nat)
    requires i <= j < |s|
    ensures s[i..j + 1] == s[i..j] + [s[j]]
  {}

  lemma PutAllLast(buf: seq<byte>, entries: seq<DirEntry>, e: DirEntry)
    requires |buf| == 256 && Fits(e) && forall i :: 0 <= i < |entries| ==> Fits(entries[i])
    ensures PutAll(buf, entries + [e]) == Put(PutAll(buf, entries), Part(e) * 13, Chars(e))
  {
    hide Put, Part, Chars;
    assert (entries + [e])[..|entries|] == entries;
  }

  lemma PutAllStep(buf: seq<byte>, dir: seq<DirEntry>, start: nat, next: nat)
    requires |buf| == 256 && start <= next < |dir| && Fits(dir[next])
    requires forall i :: start <= i < next ==> Fits(dir[i])
    ensures PutAll(buf, dir[start..next + 1]) ==
            Put(PutAll(buf, dir[start..next]), Part(dir[next]) * 13, Chars(dir[next]))
  {
    hide Put, Part, Chars, PutAll;
    SplitLast(dir, start, next);
    PutAllLast(buf, dir[start..next], dir[next]);
  }

  /** The long-name branch: from the first long entry of a run to the entry that ends it. Returns the
      index of that entry, which holds the file's attributes. */
  method Assemble(dir: seq<DirEntry>, start: nat, filename: array<byte>) returns (next: nat)
    requires filename.Length == 256
    requires exists stop :: start <= stop < |dir| && stop - start <= 19 && dir[stop].Other?
    requires forall i :: start <= i < |dir| && dir[i].Long? ==> Fits(dir[i])
    modifies filename
    ensures start <= next < |dir| && dir[next].Other? && next - start <= 19
    ensures forall i :: start <= i < next ==> dir[i].Long?
    ensures filename[..] == PutAll(old(filename[..]), dir[start..next])[13 * (next - start) := 0]
  {
    hide PutAll, Fits;
    ghost var stop :| start <= stop < |dir| && stop - start <= 19 && dir[stop].Other?;
    var len := 0;
    next := start;
    NothingPut(filename[..]);
    assert dir[start..start] == [];
    while dir[next].Long?
      invariant start <= next <= stop && len == 13 * (next - start)
      invariant forall i :: start <= i < next ==> dir[i].Long?
      invariant filename[..] == PutAll(old(filename[..]), dir[start..next])
      decreases stop - next
    {
      PutEntry(filename, dir[next]);
      PutAllStep(old(filename[..]), dir, start, next);
      len := len + 13;
      next := next + 1;
    }
    ghost var buf := filename[..];
    filename[len] := 0;
    assert filename[..] == buf[len := 0];
  }

  lemma NothingPut(buf: seq<byte>)
    requires |buf| == 256
    ensures PutAll(buf, []) == buf
  {}

  // ----- splitting a name -----

  /** Character q of the split form of a name: the name, a zero, then padding. */
  function Padded(name: seq<byte>, q: nat): wchar {
    if q < |name| then name[q] else if q == |name| then 0 else 0xFFFF
  }

  function Piece(name: seq<byte>, at: nat, n: nat): (r: seq<wchar>)
    ensures |r| == n
    ensures forall i :: 0 <= i < n ==> r[i] == Padded(name, at + i)
  {
    seq<wchar>(n, (i: nat) => Padded(name, at + i))
  }

  function PartCount(name: seq<byte>): nat {
    (|name| + 12) / 13
  }

  /** Part k of a name; the last part has bit 0x40 set in its order number. */
  function NameEntry(name: seq<byte>, k: nat): DirEntry
    requires k < PartCount(name) <= 31
  {
    Long(k + 1 + (if k + 1 == PartCount(name) then 0x40 else 0),
         Piece(name, 13 * k, 5), Piece(name, 13 * k + 5, 6), Piece(name, 13 * k + 11, 2))
  }

  /** The entries of a name; their order numbers have five bits. */
  function Split(name: seq<byte>): (r: seq<DirEntry>)
    requires |name| <= 403
    ensures |r| == PartCount(name)
    ensures forall k :: 0 <= k < |r| ==> r[k] == NameEntry(name, k)
  {
    seq(PartCount(name), k requires 0 <= k < PartCount(name) => NameEntry(name, k))
  }

  lemma SplitFits(name: seq<byte>, k: nat)
    requires |name| <= 247 && k < PartCount(name)
    ensures Fits(NameEntry(name, k)) && Part(NameEntry(name, k)) == k
    ensures forall i :: 0 <= i < 13 ==> Chars(NameEntry(name, k))[i] == Padded(name, 13 * k + i)
  {
    assert PartCount(name) <= 19;
  }

  /** Writing parts of a name in any order: every position inside a written part holds its character,
      every other position is as before. */
  lemma {:induction false} PutAllParts(name: seq<byte>, buf: seq<byte>, run: seq<DirEntry>, q: nat)
    requires |name| <= 247 && |buf| == 256 && q < 256
    requires forall i :: 0 <= i < |run| ==> run[i] in Split(name)
    ensures forall i :: 0 <= i < |run| ==> Fits(run[i])
    ensures PutAll(buf, run)[q] ==
            if exists i :: 0 <= i < |run| && Part(run[i]) == q / 13 then Low(Padded(name, q)) else buf[q]
  {
    hide Put, Padded, NameEntry, Piece, Chars, Part;
    forall i | 0 <= i < |run| ensures Fits(run[i]) {
      var k :| 0 <= k < PartCount(name) && run[i] == NameEntry(name, k);
      SplitFits(name, k);
    }
    if run != [] {
      var init, e := run[..|run| - 1], run[|run| - 1];
      PutAllParts(name, buf, init, q);
      var k :| 0 <= k < PartCount(name) && e == NameEntry(name, k);
      PutPart(name, PutAll(buf, init), k, q);
      if q / 13 == k {
        assert Part(run[|run| - 1]) == q / 13;
      } else {
        assert forall i :: 0 <= i < |init| ==> run[i] == init[i];
      }
    }
  }

  lemma PutPart(name: seq<byte>, buf: seq<byte>, k: nat, q: nat)
    requires |name| <= 247 && |buf| == 256 && q < 256 && k < PartCount(name)
    ensures Fits(NameEntry(name, k)) && Part(NameEntry(name, k)) == k
    ensures Put(buf, k * 13, Chars(NameEntry(name, k)))[q] == if q / 13 == k then Low(Padded(name, q)) else buf[q]
  {
    SplitFits(name, k);
    hide Padded, NameEntry, Chars, Fits;
    assert 13 * k <= q < 13 * k + 13 <==> q / 13 == k;
  }

  // ----- C strings -----

  /** The bytes before the first zero. */
  function CString(s: seq<byte>): seq<byte>
    requires 0 in s
  {
    if s[0] == 0 then [] else [s[0]] + CString(s[1..])
  }

  lemma {:induction false} CStringIs(s: seq<byte>, name: seq<byte>)
    requires |name| < |s| && name == s[..|name|] && s[|name|] == 0 && 0 !in name
    ensures 0 in s && CString(s) == name
  {
    if name != [] {
      assert s[0] == name[0] && name[0] in name;
      CStringIs(s[1..], name[1..]);
    }
  }

  /** The assembled buffer, for the entries of a name in any order, is that name as a C string. */
  lemma LongNameRoundTrip(name: seq<byte>, run: seq<DirEntry>, buf: seq<byte>)
    requires 0 < |name| <= 247 && 0 !in name && |buf| == 256
    requires multiset(run) == multiset(Split(name))
    ensures |run| <= 19 && forall i :: 0 <= i < |run| ==> Fits(run[i])
    ensures
      var filename := PutAll(buf, run)[13 * |run| := 0];
      0 in filename && CString(filename) == name
  {
    var parts := Split(name);
    assert |run| == |multiset(run)| == |parts| == PartCount(name) <= 19;
    forall i | 0 <= i < |run| ensures run[i] in parts {
      assert run[i] in multiset(run);
    }
    PutAllParts(name, buf, run, 0);
    var filename := PutAll(buf, run)[13 * |run| := 0];
    hide PutAll, Fits;
    forall q | 0 <= q < 13 * |run| ensures filename[q] == Low(Padded(name, q)) {
      PutAllParts(name, buf, run, q);
      PartPresent(name, run, q / 13);
    }
    PaddedName(name, filename);
  }

  lemma PartPresent(name: seq<byte>, run: seq<DirEntry>, k: nat)
    requires |name| <= 247 && k < PartCount(name) && multiset(run) == multiset(Split(name))
    ensures exists i :: 0 <= i < |run| && run[i].Long? && Part(run[i]) == k
  {
    assert Split(name)[k] == NameEntry(name, k);
    assert NameEntry(name, k) in multiset(Split(name));
    assert NameEntry(name, k) in multiset(run);
    SplitFits(name, k);
  }

  /** The 13 characters of the entry are stored inside the buffer. */
  predicate StoredInside(e: DirEntry) {
    e.Long? && 0 <= Part(e) * 13 && Part(e) * 13 + 13 <= 256
  }

  /** For the entries of a name in any order, all writes, the terminator's included, stay inside the
      256-byte buffer if and only if the name has at most 247 characters. */
  lemma WritesInsideIff(name: seq<byte>, run: seq<DirEntry>)
    requires |name| <= 403 && multiset(run) == multiset(Split(name))
    ensures (forall i :: 0 <= i < |run| ==> StoredInside(run[i])) && 13 * |run| < 256 <==> |name| <= 247
  {
    var parts := Split(name);
    assert |run| == |multiset(run)| == |parts| == PartCount(name);
    if |name| <= 247 {
      forall i | 0 <= i < |run| ensures StoredInside(run[i]) {
        assert run[i] in multiset(run);
        var k :| 0 <= k < |parts| && parts[k] == run[i];
        SplitFits(name, k);
      }
    }
  }

  lemma PaddedName(name: seq<byte>, s: seq<byte>)
    requires 0 !in name && |s| == 256 && 13 * PartCount(name) < 256 && s[13 * PartCount(name)] == 0
    requires forall q :: 0 <= q < 13 * PartCount(name) ==> s[q] == Low(Padded(name, q))
    ensures 0 in s && CString(s) == name
  {
    assert |name| <= 13 * PartCount(name);
    assert forall q :: 0 <= q < |name| ==> s[q] == name[q];
    CStringIs(s, name);
  }

  /** The value of a signed char. */
  function Signed(b: byte): int {
    if b < 128 then b else b - 256
  }

  /** strcmp */
  method StrCmp(a: seq<byte>, b: seq<byte>) returns (r: int)
    requires 0 in a && 0 in b
    ensures r == 0 <==> CString(a) == CString(b)
    ensures r != 0 ==> exists i :: && 0 <= i < |a| && i < |b| && (forall q :: 0 <= q < i ==> a[q] == b[q] != 0)
                                   && a[i] != b[i] && r == if Signed(a[i]) > Signed(b[i]) then 1 else -1
  {
    hide CString;
    var i := 0;
    assert a[0..] == a && b[0..] == b;
    while a[i] == b[i]
      invariant 0 <= i < |a| && i < |b| && 0 in a[i..] && 0 in b[i..]
      invariant forall q :: 0 <= q < i ==> a[q] == b[q] != 0
      invariant CString(a) == CString(b) <==> CString(a[i..]) == CString(b[i..])
      decreases |a| - i
    {
      if a[i] == 0 {
        CStringEmpty(a[i..]);
        CStringEmpty(b[i..]);
        return 0;
      }
      CStringStep(a, i);
      CStringStep(b, i);
      ConsEqual(a[i], CString(a[i + 1..]), CString(b[i + 1..]));
      i := i + 1;
    }
    CStringsDiffer(a[i..], b[i..]);
    if Signed(a[i]) > Signed(b[i]) {
      return 1;
    } else {
      return -1;
    }
  }

  lemma CStringEmpty(s: seq<byte>)
    requires s != [] && s[0] == 0
    ensures 0 in s && CString(s) == []
  {}

  lemma CStringStep(s: seq<byte>, i: nat)
    requires i < |s| && 0 in s[i..] && s[i] != 0
    ensures i + 1 < |s| && 0 in s[i + 1..] && CString(s[i..]) == [s[i]] + CString(s[i + 1..])
  {
    assert s[i..][1..] == s[i + 1..];
  }

  lemma ConsEqual(x: byte, s: seq<byte>, t: seq<byte>)
    ensures [x] + s == [x] + t <==> s == t
  {
    if [x] + s == [x] + t {
      assert s == ([x] + s)[1..] == ([x] + t)[1..] == t;
    }
  }

  lemma CStringsDiffer(a: seq<byte>, b: seq<byte>)
    requires 0 in a && 0 in b && a[0] != b[0]
    ensures CString(a) != CString(b)
  {
    if a[0] != 0 {
      assert CString(a)[0] == a[0];
    }
    if b[0] != 0 {
      assert CString(b)[0] == b[0];
    }
  }

  /** Assembling the entries of a name and comparing the result with a path component finds a match
      if and only if the component is that name. */
  method MatchLongName(dir: seq<DirEntry>, start: nat, filename: array<byte>, component: seq<byte>,
                       ghost name: seq<byte>, ghost stop: nat) returns (next: nat, found: bool)
    requires filename.Length == 256 && 0 in component
    requires 0 < |name| <= 247 && 0 !in name
    requires start <= stop < |dir| && dir[stop].Other? && multiset(dir[start..stop]) == multiset(Split(name))
    requires forall i :: start <= i < |dir| && dir[i].Long? ==> Fits(dir[i])
    modifies filename
    ensures next == stop
    ensures found <==> CString(component) == name
  {
    ghost var buf := filename[..];
    LongNameRoundTrip(name, dir[start..stop], buf);
    assert forall i :: start <= i < stop ==> dir[i] == dir[start..stop][i - start] && dir[i].Long?;
    next := Assemble(dir, start, filename);
    assert next == stop;
    var r := StrCmp(filename[..], component);
    found := r == 0;
  }
}
