/** The byte stream that `build_context_digest` (scripts/hardware_lab_evidence.py) feeds to
    SHA-256: it stands for exactly one set of files. */
module ContextDigest {
  import opened Wire

  datatype Kind = Symlink | File(data: bytes) | Other

  /** What `rglob` lists: a path below the directory, and what is there. */
  datatype Entry = Entry(path: string, kind: Kind)

  // -------------------------------------------------------------------- encodings

  /** The UTF-8 bytes of a character (section 3 of RFC 3629). */
  function Utf8Char(c: char): (b: bytes)
    ensures b != []
  {
    var n := c as int;
    if n < 0x80 then [n]
    else if n < 0x800 then [0xC0 + n / 0x40, 0x80 + n % 0x40]
    else if n < 0x1_0000 then [0xE0 + n / 0x1000, 0x80 + n / 0x40 % 0x40, 0x80 + n % 0x40]
    else [0xF0 + n / 0x4_0000, 0x80 + n / 0x1000 % 0x40, 0x80 + n / 0x40 % 0x40, 0x80 + n % 0x40]
  }

  function Utf8(s: string): bytes {
    if s == "" then [] else Utf8Char(s[0]) + Utf8(s[1..])
  }

  /** The first byte tells how many there are. */
  function Utf8Length(first: byte): nat {
    if first < 0x80 then 1 else if first < 0xE0 then 2 else if first < 0xF0 then 3 else 4
  }

  lemma Utf8CharLength(c: char)
    ensures |Utf8Char(c)| == Utf8Length(Utf8Char(c)[0])
  {
  }

  lemma Utf8CharOnce(a: char, b: char)
    requires Utf8Char(a) == Utf8Char(b)
    ensures a == b
  {
    var m, n := a as int, b as int;
    Utf8Digits(m);
    Utf8Digits(n);
    assert |Utf8Char(a)| == |Utf8Char(b)|;
    assert forall i :: 0 <= i < |Utf8Char(a)| ==> Utf8Char(a)[i] == Utf8Char(b)[i];
  }

  lemma Utf8Digits(n: nat)
    ensures n == n / 0x40 * 0x40 + n % 0x40
    ensures n / 0x40 == n / 0x1000 * 0x40 + n / 0x40 % 0x40
    ensures n / 0x1000 == n / 0x4_0000 * 0x40 + n / 0x1000 % 0x40
  {
    assert n / 0x1000 == n / 0x40 / 0x40;
    assert n / 0x4_0000 == n / 0x1000 / 0x40;
  }

  lemma {:induction false} Utf8Once(s: string, t: string)
    requires Utf8(s) == Utf8(t)
    ensures s == t
  {
    hide Utf8Char;
    if s != "" && t != "" {
      var a, b := Utf8Char(s[0]), Utf8Char(t[0]);
      Utf8CharLength(s[0]);
      Utf8CharLength(t[0]);
      assert a[0] == Utf8(s)[0] && b[0] == Utf8(t)[0];
      assert a == Utf8(s)[..|a|] && b == Utf8(t)[..|b|];
      Utf8CharOnce(s[0], t[0]);
      assert Utf8(s[1..]) == Utf8(s)[|a|..] && Utf8(t[1..]) == Utf8(t)[|b|..];
      Utf8Once(s[1..], t[1..]);
      assert s == [s[0]] + s[1..] && t == [t[0]] + t[1..];
    }
  }

  /** `n.to_bytes(width, "big")` */
  function Big(n: nat, width: nat): (b: bytes)
    ensures |b| == width
  {
    if width == 0 then [] else Big(n / 0x100, width - 1) + [n % 0x100]
  }

  function Limit(width: nat): nat {
    if width == 0 then 1 else 0x100 * Limit(width - 1)
  }

  lemma {:induction false} BigOnce(m: nat, n: nat, width: nat)
    requires m < Limit(width) && n < Limit(width) && Big(m, width) == Big(n, width)
    ensures m == n
  {
    if width > 0 {
      assert Big(m, width)[..width - 1] == Big(m / 0x100, width - 1);
      assert Big(n, width)[..width - 1] == Big(n / 0x100, width - 1);
      assert Big(m, width)[width - 1] == m % 0x100 && Big(n, width)[width - 1] == n % 0x100;
      BigOnce(m / 0x100, n / 0x100, width - 1);
    }
  }

  // ------------------------------------------------------------------ path order

  /** Code point order, as Python compares strings. */
  predicate Before(s: string, t: string) {
    if t == "" then false
    else if s == "" then true
    else if s[0] != t[0] then s[0] < t[0]
    else Before(s[1..], t[1..])
  }

  lemma {:induction false} BeforeTotal(s: string, t: string)
    ensures s == t || Before(s, t) || Before(t, s)
  {
    if s != "" && t != "" && s[0] == t[0] {
      BeforeTotal(s[1..], t[1..]);
      assert s == [s[0]] + s[1..] && t == [t[0]] + t[1..];
    }
  }

  lemma {:induction false} BeforeStrict(s: string)
    ensures !Before(s, s)
  {
    if s != "" {
      BeforeStrict(s[1..]);
    }
  }

  lemma {:induction false} BeforeTransitive(s: string, t: string, u: string)
    requires Before(s, t) && Before(t, u)
    ensures Before(s, u)
  {
    if s != "" && s[0] == t[0] == u[0] {
      BeforeTransitive(s[1..], t[1..], u[1..]);
    }
  }

  predicate Sorted(files: seq<Entry>) {
    forall i, j :: 0 <= i < j < |files| ==> Before(files[i].path, files[j].path)
  }

  predicate DistinctPaths(entries: seq<Entry>) {
    forall i, j :: 0 <= i < j < |entries| ==> entries[i].path != entries[j].path
  }

  /** The same entries, in any order. */
  ghost predicate SameEntries(a: seq<Entry>, b: seq<Entry>) {
    forall e :: e in a <==> e in b
  }

  /** `sorted(..., key=path)`, by insertion. */
  method SortByPath(entries: seq<Entry>) returns (r: seq<Entry>)
    requires DistinctPaths(entries)
    ensures Sorted(r) && SameEntries(entries, r)
  {
    hide Before;
    r := [];
    for i := 0 to |entries|
      invariant Sorted(r) && SameEntries(entries[..i], r)
    {
      var e := entries[i];
      var k := 0;
      while k < |r| && Before(r[k].path, e.path)
        invariant 0 <= k <= |r| && forall j :: 0 <= j < k ==> Before(r[j].path, e.path)
      {
        k := k + 1;
      }
      assert entries[..i + 1] == entries[..i] + [e];
      NotYetIn(entries, i, r);
      InsertSorted(r, k, e);
      r := r[..k] + [e] + r[k..];
    }
    assert entries[..|entries|] == entries;
  }

  lemma NotYetIn(entries: seq<Entry>, i: nat, r: seq<Entry>)
    requires DistinctPaths(entries) && i < |entries| && SameEntries(entries[..i], r)
    ensures forall j :: 0 <= j < |r| ==> r[j].path != entries[i].path
  {
    forall j | 0 <= j < |r|
      ensures r[j].path != entries[i].path
    {
      assert r[j] in entries[..i];
    }
  }

  lemma InsertSorted(r: seq<Entry>, k: nat, e: Entry)
    requires Sorted(r) && k <= |r| && (forall j :: 0 <= j < |r| ==> r[j].path != e.path)
    requires forall j :: 0 <= j < k ==> Before(r[j].path, e.path)
    requires k < |r| ==> !Before(r[k].path, e.path)
    ensures Sorted(r[..k] + [e] + r[k..]) && SameEntries(r + [e], r[..k] + [e] + r[k..])
  {
    hide Before;
    forall j | k <= j < |r|
      ensures Before(e.path, r[j].path)
    {
      BeforeTotal(e.path, r[k].path);
      if j > k {
        BeforeTransitive(e.path, r[k].path, r[j].path);
      }
    }
    assert r == r[..k] + r[k..];
  }

  // ------------------------------------------------------------------- the stream

  datatype Stored = Stored(path: string, data: bytes)

  /** The lengths that 4 and 8 bytes can tell. */
  predicate Fits(f: Stored) {
    |Utf8(f.path)| < Limit(4) && |f.data| < Limit(8)
  }

  function Record(f: Stored): bytes {
    Big(|Utf8(f.path)|, 4) + Utf8(f.path) + Big(|f.data|, 8) + f.data
  }

  function Records(files: seq<Stored>): bytes {
    if files == [] then [] else Record(files[0]) + Records(files[1..])
  }

  lemma {:induction false} RecordsSnoc(files: seq<Stored>, f: Stored)
    ensures Records(files + [f]) == Records(files) + Record(f)
  {
    hide Record;
    if files == [] {
      assert files + [f] == [f] && [f][1..] == [];
    } else {
      RecordsSnoc(files[1..], f);
      assert (files + [f])[1..] == files[1..] + [f];
    }
  }

  /** A record can be read off the front of a stream. */
  lemma RecordOnce(f: Stored, g: Stored, s: bytes, t: bytes)
    requires Fits(f) && Fits(g) && Record(f) + s == Record(g) + t
    ensures f == g && s == t
  {
    hide Utf8, Big, Limit;
    var p, q := Utf8(f.path), Utf8(g.path);
    var x, y := Record(f) + s, Record(g) + t;
    assert x[..4] == Big(|p|, 4) && y[..4] == Big(|q|, 4);
    BigOnce(|p|, |q|, 4);
    assert x[4..4 + |p|] == p && y[4..4 + |p|] == q;
    Utf8Once(f.path, g.path);
    var o := 4 + |p|;
    assert x[o..o + 8] == Big(|f.data|, 8) && y[o..o + 8] == Big(|g.data|, 8);
    BigOnce(|f.data|, |g.data|, 8);
    assert x[o + 8..o + 8 + |f.data|] == f.data && y[o + 8..o + 8 + |f.data|] == g.data;
    assert x[o + 8 + |f.data|..] == s && y[o + 8 + |f.data|..] == t;
  }

  lemma RecordNonempty(f: Stored)
    ensures Record(f) != []
  {
    hide Utf8;
    assert |Record(f)| >= 4;
  }

  lemma {:induction false} RecordsOnce(a: seq<Stored>, b: seq<Stored>)
    requires (forall f :: f in a ==> Fits(f)) && (forall f :: f in b ==> Fits(f))
    requires Records(a) == Records(b)
    ensures a == b
  {
    hide Record, Fits;
    if a != [] {
      RecordNonempty(a[0]);
    }
    if b != [] {
      RecordNonempty(b[0]);
    }
    if a != [] && b != [] {
      RecordOnce(a[0], b[0], Records(a[1..]), Records(b[1..]));
      RecordsOnce(a[1..], b[1..]);
      assert a == [a[0]] + a[1..] && b == [b[0]] + b[1..];
    }
  }

  predicate InPathOrder(files: seq<Stored>) {
    forall i, j :: 0 <= i < j < |files| ==> Before(files[i].path, files[j].path)
  }

  lemma FirstLeast(a: seq<Stored>, f: Stored)
    requires InPathOrder(a) && f in a
    ensures a[0] == f || Before(a[0].path, f.path)
  {
    hide Before;
  }

  lemma TailElements(a: seq<Stored>, b: seq<Stored>)
    requires InPathOrder(a) && InPathOrder(b) && a != [] && b != [] && a[0] == b[0]
    requires forall f :: f in a <==> f in b
    ensures forall f :: f in a[1..] <==> f in b[1..]
  {
    hide Before;
    BeforeStrict(a[0].path);
    assert a == [a[0]] + a[1..] && b == [b[0]] + b[1..];
    assert forall i :: 0 < i < |a| ==> Before(a[0].path, a[i].path);
    assert forall i :: 0 < i < |b| ==> Before(b[0].path, b[i].path);
    assert a[0] !in a[1..] && b[0] !in b[1..];
    forall f
      ensures f in a[1..] <==> f in b[1..]
    {
      assert f in a <==> f == a[0] || f in a[1..];
      assert f in b <==> f == b[0] || f in b[1..];
    }
  }

  lemma SomeElement(a: seq<Stored>)
    requires a != []
    ensures exists f :: f in a
  {
    assert a[0] in a;
  }

  /** Sorting leaves one order. */
  lemma {:induction false} OrderOnce(a: seq<Stored>, b: seq<Stored>)
    requires InPathOrder(a) && InPathOrder(b) && forall f :: f in a <==> f in b
    ensures a == b
  {
    hide Before;
    if a == [] {
      if b != [] {
        SomeElement(b);
      }
    } else {
      assert a[0] in b;
      assert b[0] in a;
      FirstLeast(a, b[0]);
      FirstLeast(b, a[0]);
      if a[0] != b[0] {
        BeforeTransitive(a[0].path, b[0].path, a[0].path);
        BeforeStrict(a[0].path);
      }
      TailElements(a, b);
      OrderOnce(a[1..], b[1..]);
      assert a == [a[0]] + a[1..] && b == [b[0]] + b[1..];
    }
  }

  /** The regular files of a listing, in path order. */
  ghost predicate FilesOf(entries: seq<Entry>, files: seq<Stored>) {
    InPathOrder(files) && forall f :: f in files <==> Entry(f.path, File(f.data)) in entries
  }

  /** The bytes `b"ESP32QJS_BUILD_CONTEXT_V1\0"`. */
  function Domain(): bytes {
    [0x45, 0x53, 0x50, 0x33, 0x32, 0x51, 0x4A, 0x53, 0x5F, 0x42, 0x55, 0x49, 0x4C, 0x44, 0x5F,
     0x43, 0x4F, 0x4E, 0x54, 0x45, 0x58, 0x54, 0x5F, 0x56, 0x31, 0x00]
  }

  /** An entry that stops the digest. */
  predicate Refused(e: Entry) {
    e.kind.Symlink? || (e.kind.File? && !Fits(Stored(e.path, e.kind.data)))
  }

  /** `build_context_digest`, up to the hash: what is fed to SHA-256. */
  method BuildContextStream(entries: seq<Entry>) returns (r: Result<bytes>, ghost files: seq<Stored>)
    requires DistinctPaths(entries)
    ensures r.Err? <==> exists e :: e in entries && Refused(e)
    ensures r.Ok? ==> FilesOf(entries, files) && r.value == Domain() + Records(files)
  {
    hide Before, Record, Records, Domain, Fits, Streamed, Refused, Sorted, FilesOf, SameEntries;
    var sorted := SortByPath(entries);
    var digest := Domain();
    files := [];
    NoRecords();
    StartStream(sorted);
    for i := 0 to |sorted|
      invariant Streamed(sorted, i, files) && digest == Domain() + Records(files)
    {
      var e := sorted[i];
      if e.kind.Symlink? {
        Lengths(Stored(e.path, []));
        Stopped(entries, sorted, i);
        return Err, files;
      }
      if !e.kind.File? {
        SkipEntry(sorted, i, files);
        continue;
      }
      ghost var f := Stored(e.path, e.kind.data);
      var relative := Utf8(e.path);
      Lengths(f);
      if |relative| >= Limit(4) || |e.kind.data| >= Limit(8) {
        Stopped(entries, sorted, i);
        return Err, files;
      }
      AddFile(sorted, i, files);
      RecordsSnoc(files, f);
      RecordIs(f);
      digest := digest + Big(|relative|, 4);
      digest := digest + relative;
      digest := digest + Big(|e.kind.data|, 8);
      digest := digest + e.kind.data;
      files := files + [f];
    }
    AllStreamed(entries, sorted, files);
    return Ok(digest), files;
  }

  /** Where the loop stands: nothing refused so far, and the files so far in order. */
  ghost predicate Streamed(sorted: seq<Entry>, i: nat, files: seq<Stored>) {
    && i <= |sorted| && FilesOf(sorted[..i], files)
    && forall e :: e in sorted[..i] ==> !Refused(e)
  }

  lemma StartStream(sorted: seq<Entry>)
    ensures Streamed(sorted, 0, [])
  {
    hide Before, Refused;
  }

  lemma SkipEntry(sorted: seq<Entry>, i: nat, files: seq<Stored>)
    requires Streamed(sorted, i, files) && i < |sorted| && sorted[i].kind.Other?
    ensures Streamed(sorted, i + 1, files)
  {
    hide Before, Fits;
    assert sorted[..i + 1] == sorted[..i] + [sorted[i]];
  }

  lemma AddFile(sorted: seq<Entry>, i: nat, files: seq<Stored>)
    requires Sorted(sorted) && Streamed(sorted, i, files) && i < |sorted| && sorted[i].kind.File?
    requires Fits(Stored(sorted[i].path, sorted[i].kind.data))
    ensures Streamed(sorted, i + 1, files + [Stored(sorted[i].path, sorted[i].kind.data)])
  {
    hide Before, Fits;
    var e := sorted[i];
    var more := files + [Stored(e.path, e.kind.data)];
    assert sorted[..i + 1] == sorted[..i] + [e];
    forall k | 0 <= k < |files|
      ensures Before(files[k].path, e.path)
    {
      assert files[k] in files;
      var j :| 0 <= j < i && sorted[..i][j] == Entry(files[k].path, File(files[k].data));
    }
    forall f
      ensures f in more <==> Entry(f.path, File(f.data)) in sorted[..i + 1]
    {
      assert f in more <==> f in files || f == Stored(e.path, e.kind.data);
    }
  }

  lemma Stopped(entries: seq<Entry>, sorted: seq<Entry>, i: nat)
    requires SameEntries(entries, sorted) && i < |sorted| && Refused(sorted[i])
    ensures exists e :: e in entries && Refused(e)
  {
    hide Refused;
    assert sorted[i] in entries;
  }

  lemma AllStreamed(entries: seq<Entry>, sorted: seq<Entry>, files: seq<Stored>)
    requires SameEntries(entries, sorted) && Streamed(sorted, |sorted|, files)
    ensures FilesOf(entries, files) && forall e :: e in entries ==> !Refused(e)
  {
    hide Refused, Before;
    assert sorted[..|sorted|] == sorted;
  }

  lemma NoRecords()
    ensures Records([]) == []
  {
  }

  lemma Lengths(f: Stored)
    ensures Fits(f) <==> |Utf8(f.path)| < Limit(4) && |f.data| < Limit(8)
    ensures Refused(Entry(f.path, File(f.data))) <==> !Fits(f)
    ensures Refused(Entry(f.path, Symlink))
  {
  }

  lemma RecordIs(f: Stored)
    ensures Record(f) == Big(|Utf8(f.path)|, 4) + Utf8(f.path) + Big(|f.data|, 8) + f.data
  {
  }

  /** The stream stands for the files and nothing else: two listings, in whatever order
      they were enumerated, give equal streams exactly when their regular files are equal,
      path by path and byte by byte. */
  lemma StreamsAgree(a: seq<Entry>, f: seq<Stored>, b: seq<Entry>, g: seq<Stored>)
    requires FilesOf(a, f) && FilesOf(b, g)
    requires (forall e :: e in a ==> !Refused(e)) && (forall e :: e in b ==> !Refused(e))
    ensures Domain() + Records(f) == Domain() + Records(g)
            <==> forall path, data :: Entry(path, File(data)) in a <==> Entry(path, File(data)) in b
  {
    hide Before, Record, Records, Domain, Fits;
    if Domain() + Records(f) == Domain() + Records(g) {
      assert Records(f) == (Domain() + Records(f))[|Domain()|..];
      assert Records(g) == (Domain() + Records(g))[|Domain()|..];
      forall x | x in f || x in g
        ensures Fits(x)
      {
        assert !Refused(Entry(x.path, File(x.data)));
      }
      RecordsOnce(f, g);
      forall path, data
        ensures Entry(path, File(data)) in a <==> Entry(path, File(data)) in b
      {
        assert Stored(path, data) in f <==> Stored(path, data) in g;
      }
    }
    if forall path, data :: Entry(path, File(data)) in a <==> Entry(path, File(data)) in b {
      forall x
        ensures x in f <==> x in g
      {
        assert Entry(x.path, File(x.data)) in a <==> Entry(x.path, File(x.data)) in b;
      }
      OrderOnce(f, g);
    }
  }

  // ------------------------------------------------------- what the encodings stand for

  /** The number that big-endian bytes stand for. */
  function FromBig(b: bytes): nat {
    if b == [] then 0 else 0x100 * FromBig(b[..|b| - 1]) + b[|b| - 1] as nat
  }

  /** Lengths are told most significant byte first. */
  lemma {:induction false} BigReads(n: nat, width: nat)
    requires n < Limit(width)
    ensures FromBig(Big(n, width)) == n
  {
    if width > 0 {
      BigReads(n / 0x100, width - 1);
      assert Big(n, width)[..width - 1] == Big(n / 0x100, width - 1);
    }
  }

  lemma LimitIs()
    ensures Limit(4) == 0x1_0000_0000 && Limit(8) == 0x1_0000_0000_0000_0000
  {
    assert Limit(4) == 0x100 * (0x100 * (0x100 * (0x100 * Limit(0))));
    assert Limit(8) == 0x100 * (0x100 * (0x100 * (0x100 * Limit(4))));
  }

  /** The code point that UTF-8 bytes stand for: the payload bits of the first byte, then six
      bits of each further one (section 3 of RFC 3629). */
  function FromUtf8(b: bytes): int {
    if |b| == 1 then b[0] as int
    else if |b| == 2 then (b[0] as int - 0xC0) * 0x40 + (b[1] as int - 0x80)
    else if |b| == 3 then (b[0] as int - 0xE0) * 0x1000 + (b[1] as int - 0x80) * 0x40 + (b[2] as int - 0x80)
    else if |b| == 4 then
      (b[0] as int - 0xF0) * 0x4_0000 + (b[1] as int - 0x80) * 0x1000 + (b[2] as int - 0x80) * 0x40 + (b[3] as int - 0x80)
    else -1
  }

  lemma Utf8Reads(c: char)
    ensures FromUtf8(Utf8Char(c)) == c as int
    ensures c as int < 0x80 <==> |Utf8Char(c)| == 1
    ensures forall i :: 0 < i < |Utf8Char(c)| ==> 0x80 <= Utf8Char(c)[i] < 0xC0
  {
    Utf8Digits(c as int);
  }

  /** What goes before the records. */
  lemma DomainSpells()
    ensures Domain() == Ascii("ESP32QJS_BUILD_CONTEXT_V1") + [0]
  {
  }
}
