/** The binary scene file: quint32 words stored least significant byte first, the
    hash tables as counted key/value word lists, the string tables as counted
    length-prefixed byte strings, and the scene as a node count followed by the
    raw transform and hierarchy arrays. Saving is a function from the scene to the
    bytes written; loading is a function from the scene before and the bytes of
    the file to the scene after. */
module Persist {
  import opened Common
  import opened SceneGraph
  import Merge

  // ---------------------------------------------------------------- words

  /** A quint32 as the four bytes it occupies in the file, least significant first. */
  function WordBytes(w: u32): (r: seq<Byte>)
    ensures |r| == 4
  {
    [w % 256, (w / 256) % 256, (w / 0x1_0000) % 256, w / 0x100_0000]
  }

  /** The quint32 that four bytes of the file hold. */
  function WordOf(b: seq<Byte>): u32
    requires |b| == 4
  {
    b[0] as int + 256 * b[1] as int + 0x1_0000 * b[2] as int + 0x100_0000 * b[3] as int
  }

  lemma WordRoundTrip(w: u32)
    ensures WordOf(WordBytes(w)) == w
  {
    var b := WordBytes(w);
    assert w == w % 256 + 256 * (w / 256);
    assert w / 256 == (w / 256) % 256 + 256 * (w / 0x1_0000);
    assert w / 0x1_0000 == (w / 0x1_0000) % 256 + 256 * (w / 0x100_0000);
  }

  lemma DivMod256(lo: int, hi: nat)
    requires 0 <= lo < 256
    ensures (lo + 256 * hi) / 256 == hi && (lo + 256 * hi) % 256 == lo
  {
  }

  lemma DivMod64K(lo: int, hi: nat)
    requires 0 <= lo < 0x1_0000
    ensures (lo + 0x1_0000 * hi) / 0x1_0000 == hi
  {
  }

  lemma DivMod16M(lo: int, hi: nat)
    requires 0 <= lo < 0x100_0000
    ensures (lo + 0x100_0000 * hi) / 0x100_0000 == hi
  {
  }

  /** Every four bytes are the bytes of the word they hold. */
  lemma BytesRoundTrip(b: seq<Byte>)
    requires |b| == 4
    ensures WordBytes(WordOf(b)) == b
  {
    var w := WordOf(b);
    var b0, b1, b2, b3 := b[0] as int, b[1] as int, b[2] as int, b[3] as int;
    DivMod256(b0, b1 + 256 * b2 + 0x1_0000 * b3);
    DivMod256(b1, b2 + 256 * b3);
    DivMod64K(b0 + 256 * b1, b2 + 256 * b3);
    DivMod256(b2, b3);
    DivMod16M(b0 + 256 * b1 + 0x1_0000 * b2, b3);
  }

  /** A list of quint32 words as bytes, as a raw write of the list's data writes it. */
  function Words(ws: seq<u32>): (r: seq<Byte>)
    ensures |r| == 4 * |ws|
  {
    if ws == [] then [] else WordBytes(ws[0]) + Words(ws[1..])
  }

  /** The words a run of bytes holds, four bytes each. */
  function WordsOf(b: seq<Byte>): (r: seq<u32>)
    requires |b| % 4 == 0
    ensures |r| == |b| / 4
  {
    if b == [] then [] else [WordOf(b[..4])] + WordsOf(b[4..])
  }

  lemma {:induction false} WordsRoundTrip(ws: seq<u32>)
    ensures WordsOf(Words(ws)) == ws
  {
    if ws != [] {
      var b := Words(ws);
      assert b[..4] == WordBytes(ws[0]) && b[4..] == Words(ws[1..]);
      WordRoundTrip(ws[0]);
      WordsRoundTrip(ws[1..]);
    }
  }

  lemma {:induction false} WordsAppend(a: seq<u32>, b: seq<u32>)
    ensures Words(a + b) == Words(a) + Words(b)
  {
    if a == [] {
      assert a + b == b;
    } else {
      assert (a + b)[1..] == a[1..] + b;
      WordsAppend(a[1..], b);
    }
  }

  /** Word i of a run of bytes is held by its bytes 4i .. 4i + 3. */
  lemma {:induction false} WordsOfAt(b: seq<Byte>, i: int)
    requires |b| % 4 == 0 && 0 <= i < |b| / 4
    ensures WordsOf(b)[i] == WordOf(b[4 * i..4 * i + 4])
  {
    if i > 0 {
      WordsOfAt(b[4..], i - 1);
      assert b[4..][4 * (i - 1)..4 * (i - 1) + 4] == b[4 * i..4 * i + 4];
    }
  }

  // ---------------------------------------------------------------- reading

  /** What a read of some value from the file yields, and the bytes after it. */
  datatype Read<T> = Read(value: T, rest: seq<Byte>)

  /** QIODevice::read of n bytes: the next n bytes, or all that is left when fewer remain. */
  function Take(data: seq<Byte>, n: nat): (r: seq<Byte>)
    ensures |r| <= n && |r| <= |data|
    ensures n <= |data| ==> |r| == n
  {
    if n <= |data| then data[..n] else data
  }

  /** The bytes after a read of n bytes. */
  function Skip(data: seq<Byte>, n: nat): (r: seq<Byte>)
    ensures Take(data, n) + r == data
  {
    if n <= |data| then data[n..] else []
  }

  /** The destination of a read: the bytes read over its first bytes, the rest as they were. */
  function Overlay(dest: seq<Byte>, got: seq<Byte>): (r: seq<Byte>)
    requires |got| <= |dest|
    ensures |r| == |dest| && r[..|got|] == got && r[|got|..] == dest[|got|..]
    ensures |got| == |dest| ==> r == got
  {
    got + dest[|got|..]
  }

  /** A read of one quint32 into a variable holding init. */
  function ReadWord(init: u32, data: seq<Byte>): Read<u32>
  {
    Read(WordOf(Overlay(WordBytes(init), Take(data, 4))), Skip(data, 4))
  }

  /** A read of |dest| words into a buffer holding dest. */
  function ReadWords(dest: seq<u32>, data: seq<Byte>): (r: Read<seq<u32>>)
    ensures |r.value| == |dest|
  {
    Read(WordsOf(Overlay(Words(dest), Take(data, 4 * |dest|))), Skip(data, 4 * |dest|))
  }

  /** Reading a word that was written gives the word back, whatever the variable held. */
  lemma ReadWordSaved(init: u32, w: u32, rest: seq<Byte>)
    ensures ReadWord(init, WordBytes(w) + rest) == Read(w, rest)
  {
    var data := WordBytes(w) + rest;
    assert data[..4] == WordBytes(w) && data[4..] == rest;
    WordRoundTrip(w);
  }

  /** Reading words that were written gives them back, whatever the buffer held. */
  lemma ReadWordsSaved(dest: seq<u32>, ws: seq<u32>, rest: seq<Byte>)
    requires |dest| == |ws|
    ensures ReadWords(dest, Words(ws) + rest) == Read(ws, rest)
  {
    var data := Words(ws) + rest;
    assert data[..4 * |ws|] == Words(ws) && data[4 * |ws|..] == rest;
    WordsRoundTrip(ws);
  }

  /** QList::resize: the first n elements, padded with pad when the list is shorter. */
  function Resize<T>(xs: seq<T>, n: nat, pad: T): (r: seq<T>)
    ensures |r| == n
    ensures forall i :: 0 <= i < n ==> r[i] == if i < |xs| then xs[i] else pad
  {
    if n <= |xs| then xs[..n] else xs + seq(n - |xs|, _ => pad)
  }

  // ---------------------------------------------------------------- hash tables

  /** The order in which a QHash iterator visits the keys of m: each key once. */
  predicate Enumerates(order: seq<u32>, m: map<u32, u32>)
  {
    (forall i, j :: 0 <= i < j < |order| ==> order[i] != order[j]) &&
    (forall k :: k in order ==> k in m) && (forall k :: k in m ==> k in order)
  }

  /** The temporary list saveMap builds: key, value, key, value, ... in iteration order. */
  function Pairs(m: map<u32, u32>, order: seq<u32>): (r: seq<u32>)
    requires forall k :: k in order ==> k in m
    ensures |r| == 2 * |order|
    ensures forall i :: 0 <= i < |order| ==> r[2 * i] == order[i] && r[2 * i + 1] == m[order[i]]
  {
    if order == [] then []
    else
      var r := [order[0], m[order[0]]] + Pairs(m, order[1..]);
      assert forall i :: 1 <= i < |order| ==> r[2 * i] == Pairs(m, order[1..])[2 * (i - 1)];
      r
  }

  /** saveMap: the word count of the temporary list, then the list. */
  function SaveMap(m: map<u32, u32>, order: seq<u32>): (r: seq<Byte>)
    requires Enumerates(order, m)
    ensures |r| == 4 + 8 * |order|
  {
    WordBytes(ToU32(2 * |order|)) + Words(Pairs(m, order))
  }

  /** The hash after hashMap[ms[2i]] = ms[2i + 1] for i = 0 .. n - 1. */
  function InsertPairs(m: map<u32, u32>, ms: seq<u32>, n: nat): (r: map<u32, u32>)
    requires 2 * n <= |ms|
    // every key held before stays, and every inserted key is present
    ensures m.Keys <= r.Keys && forall i :: 0 <= i < n ==> ms[2 * i] in r
    // a key that no pair names keeps its value, and the last pair wins
    ensures forall k :: k in m && (forall i :: 0 <= i < n ==> ms[2 * i] != k) ==> r[k] == m[k]
    ensures n > 0 ==> r[ms[2 * (n - 1)]] == ms[2 * (n - 1) + 1]
  {
    if n == 0 then m else InsertPairs(m, ms, n - 1)[ms[2 * (n - 1)] := ms[2 * (n - 1) + 1]]
  }

  /** A zero-filled list of n words, as QList::resize leaves a new list. */
  function ZeroWords(n: nat): (r: seq<u32>)
    ensures |r| == n
  {
    seq(n, _ => 0)
  }

  /** loadMap: the count, that many words into a zero-filled list, then count / 2 pairs
      inserted into the hash, which keeps what it held before. */
  function LoadMap(m: map<u32, u32>, data: seq<Byte>): (r: Read<map<u32, u32>>)
    ensures m.Keys <= r.value.Keys && |r.rest| <= |data|
    // an exhausted stream reads a count of 0 and leaves the hash as it was
    ensures data == [] ==> r == Read(m, [])
  {
    WordRoundTrip(0);
    var count := ReadWord(0, data);
    var ms := ReadWords(ZeroWords(count.value), count.rest);
    Read(InsertPairs(m, ms.value, count.value / 2), ms.rest)
  }

  /** The entries of m under the keys ks. */
  function Restrict(m: map<u32, u32>, ks: seq<u32>): (r: map<u32, u32>)
    requires forall k :: k in ks ==> k in m
    ensures forall k :: k in r <==> k in ks
    ensures forall k :: k in r ==> r[k] == m[k]
  {
    if ks == [] then map[] else Restrict(m, ks[..|ks| - 1])[ks[|ks| - 1] := m[ks[|ks| - 1]]]
  }

  /** Inserting the first n pairs of a saved list sets the first n keys of the order. */
  lemma {:induction false} InsertPairsIs(m0: map<u32, u32>, m: map<u32, u32>, order: seq<u32>, n: nat)
    requires (forall k :: k in order ==> k in m) && n <= |order|
    ensures InsertPairs(m0, Pairs(m, order), n) == m0 + Restrict(m, order[..n])
  {
    if n > 0 {
      InsertPairsIs(m0, m, order, n - 1);
      var ps := Pairs(m, order);
      var k := order[n - 1];
      assert ps[2 * (n - 1)] == k && ps[2 * (n - 1) + 1] == m[k];
      RestrictStep(m, order, n);
      UnionUpdate(m0, Restrict(m, order[..n - 1]), k, m[k]);
    }
  }

  lemma RestrictStep(m: map<u32, u32>, order: seq<u32>, n: nat)
    requires (forall k :: k in order ==> k in m) && 0 < n <= |order|
    ensures Restrict(m, order[..n]) == Restrict(m, order[..n - 1])[order[n - 1] := m[order[n - 1]]]
  {
    assert order[..n][..n - 1] == order[..n - 1];
  }

  lemma UnionUpdate(a: map<u32, u32>, b: map<u32, u32>, k: u32, v: u32)
    ensures (a + b)[k := v] == a + b[k := v]
  {
  }

  /** loadMap of a count 2n followed by 2n words inserts their n pairs. */
  lemma LoadMapReads(m0: map<u32, u32>, ps: seq<u32>, n: nat, rest: seq<Byte>)
    requires |ps| == 2 * n < TWO_32
    ensures LoadMap(m0, WordBytes(2 * n) + (Words(ps) + rest)) == Read(InsertPairs(m0, ps, n), rest)
  {
    ReadWordSaved(0, 2 * n, Words(ps) + rest);
    ReadWordsSaved(ZeroWords(2 * n), ps, rest);
  }

  /** loadMap of what saveMap wrote inserts exactly the saved entries, whatever the
      iteration order was. */
  lemma MapRoundTrip(m0: map<u32, u32>, m: map<u32, u32>, order: seq<u32>, rest: seq<Byte>)
    requires Enumerates(order, m) && 2 * |order| < TWO_32
    ensures LoadMap(m0, SaveMap(m, order) + rest) == Read(m0 + m, rest)
  {
    var ps := Pairs(m, order);
    assert SaveMap(m, order) + rest == WordBytes(2 * |order|) + (Words(ps) + rest);
    LoadMapReads(m0, ps, |order|, rest);
    InsertPairsIs(m0, m, order, |order|);
    RestrictAll(m, order);
  }

  lemma RestrictAll(m: map<u32, u32>, order: seq<u32>)
    requires Enumerates(order, m)
    ensures Restrict(m, order[..|order|]) == m
  {
    assert order[..|order|] == order;
  }

  // ---------------------------------------------------------------- string lists

  /** A character as the one byte the model writes for it. */
  function CharByte(c: char): Byte
  {
    (c as int) % 256
  }

  /** The byte string of s: one byte per character. */
  function StringBytes(s: string): (r: seq<Byte>)
    ensures |r| == |s| && forall i :: 0 <= i < |s| ==> r[i] == CharByte(s[i])
  {
    seq(|s|, i requires 0 <= i < |s| => CharByte(s[i]))
  }

  /** The string a byte buffer converts to, one character per byte. */
  function Chars(b: seq<Byte>): (r: string)
    ensures |r| == |b| && forall i :: 0 <= i < |b| ==> r[i] as int == b[i]
  {
    seq(|b|, i requires 0 <= i < |b| => b[i] as char)
  }

  predicate Ascii(s: string)
  {
    forall i :: 0 <= i < |s| ==> s[i] as int < 128
  }

  /** One line of saveStringList: its length, then length + 1 bytes of its C string, whose
      last byte is the terminating NUL. */
  function SaveLine(s: string): seq<Byte>
  {
    var sz := ToU32(|s|);
    WordBytes(sz) + Take(StringBytes(s) + [0], ToU32(sz + 1))
  }

  function SaveLines(lines: seq<string>): seq<Byte>
  {
    if lines == [] then [] else SaveLine(lines[0]) + SaveLines(lines[1..])
  }

  /** saveStringList: the number of lines, then each line. */
  function SaveStringList(lines: seq<string>): (r: seq<Byte>)
    // the count reads back first, and the lines follow it
    ensures ReadWord(0, r) == Read(ToU32(|lines|), SaveLines(lines))
  {
    ReadWordSaved(0, ToU32(|lines|), SaveLines(lines));
    WordBytes(ToU32(|lines|)) + SaveLines(lines)
  }

  /** What one line of loadStringList yields: the string, the reused byte buffer, and the
      bytes after it. */
  datatype LineRead = LineRead(line: string, buffer: seq<Byte>, rest: seq<Byte>)

  /** One line of loadStringList: the length, then length + 1 bytes into the buffer, resized
      (new bytes taken as 0). With keepNul, as written: QString(QByteArray) in Qt 6
      converts the whole buffer, terminating NUL included. Without it, corrected: the
      first length bytes. */
  function LoadLine(buf: seq<Byte>, data: seq<Byte>, keepNul: bool): LineRead
  {
    var len := ReadWord(0, data);
    var size := ToU32(len.value + 1);
    var buffer := Overlay(Resize(buf, size, 0), Take(len.rest, size));
    var text := if keepNul || size < len.value then buffer else buffer[..len.value];
    LineRead(Chars(text), buffer, Skip(len.rest, size))
  }

  /** The range-for over the resized list: lines i, i + 1, ... each loaded in turn. */
  function LoadLines(lines: seq<string>, i: nat, buf: seq<Byte>, data: seq<Byte>, keepNul: bool): (r: Read<seq<string>>)
    requires i <= |lines|
    ensures |r.value| == |lines|
    decreases |lines| - i
  {
    if i == |lines| then Read(lines, data)
    else
      var l := LoadLine(buf, data, keepNul);
      LoadLines(lines[i := l.line], i + 1, l.buffer, l.rest, keepNul)
  }

  /** loadStringList: the count, the list resized to it, then each line. */
  function LoadStringListWith(lines: seq<string>, data: seq<Byte>, keepNul: bool): (r: Read<seq<string>>)
    // the list takes the length read, whatever it held before
    ensures |r.value| == ReadWord(0, data).value
    ensures data == [] ==> r == Read([], [])
  {
    WordRoundTrip(0);
    var count := ReadWord(0, data);
    LoadLines(Resize(lines, count.value, ""), 0, [], count.rest, keepNul)
  }

  /** loadStringList as written. */
  function LoadStringListAsWritten(lines: seq<string>, data: seq<Byte>): (r: Read<seq<string>>)
    ensures |r.value| == ReadWord(0, data).value
    ensures data == [] ==> r == Read([], [])
  {
    LoadStringListWith(lines, data, true)
  }

  /** loadStringList, corrected: each string is its first length bytes. */
  function LoadStringList(lines: seq<string>, data: seq<Byte>): (r: Read<seq<string>>)
    ensures |r.value| == ReadWord(0, data).value
    ensures data == [] ==> r == Read([], [])
  {
    LoadStringListWith(lines, data, false)
  }

  /** The string the loader yields for a saved line: with keepNul it gains a NUL. */
  function Converted(s: string, keepNul: bool): string
  {
    if keepNul then s + ['\0'] else s
  }

  function Loaded(lines: seq<string>, keepNul: bool): (r: seq<string>)
    ensures |r| == |lines| && forall j :: 0 <= j < |lines| ==> r[j] == Converted(lines[j], keepNul)
  {
    if lines == [] then [] else [Converted(lines[0], keepNul)] + Loaded(lines[1..], keepNul)
  }

  /** Lines short enough that their lengths and length + 1 fit a quint32, and ASCII, so that
      one byte per character is what toStdString writes. */
  predicate Storable(lines: seq<string>)
  {
    |lines| < TWO_32 && forall j :: 0 <= j < |lines| ==> Ascii(lines[j]) && |lines[j]| + 1 < TWO_32
  }

  /** A line whose length word is followed by length + 1 bytes is read whole. */
  lemma LoadLineOf(buf: seq<Byte>, n: u32, bytes: seq<Byte>, rest: seq<Byte>, keepNul: bool)
    requires n + 1 < TWO_32 && |bytes| == n + 1
    ensures LoadLine(buf, WordBytes(n) + (bytes + rest), keepNul) ==
            LineRead(Chars(if keepNul then bytes else bytes[..n]), bytes, rest)
  {
    ReadWordSaved(0, n, bytes + rest);
    assert (bytes + rest)[..n + 1] == bytes && (bytes + rest)[n + 1..] == rest;
  }

  /** The C string of an ASCII string converts back to it, with or without its NUL. */
  lemma CStringChars(s: string)
    requires Ascii(s)
    ensures Chars((StringBytes(s) + [0])[..|s|]) == s
    ensures Chars(StringBytes(s) + [0]) == s + ['\0']
  {
    var cstr := StringBytes(s) + [0];
    assert cstr[..|s|] == StringBytes(s);
  }

  lemma LineRoundTrip(s: string, buf: seq<Byte>, rest: seq<Byte>, keepNul: bool)
    requires Ascii(s) && |s| + 1 < TWO_32
    ensures LoadLine(buf, SaveLine(s) + rest, keepNul) == LineRead(Converted(s, keepNul), StringBytes(s) + [0], rest)
  {
    var cstr := StringBytes(s) + [0];
    assert Take(cstr, |s| + 1) == cstr;
    assert SaveLine(s) + rest == WordBytes(|s|) + (cstr + rest);
    LoadLineOf(buf, |s|, cstr, rest, keepNul);
    CStringChars(s);
  }

  lemma SaveLinesStep(lines: seq<string>, rest: seq<Byte>)
    requires lines != []
    ensures SaveLines(lines) + rest == SaveLine(lines[0]) + (SaveLines(lines[1..]) + rest)
  {
  }

  /** One step of the range-for over a saved line. */
  lemma LoadLinesStep(cur: seq<string>, i: nat, buf: seq<Byte>, s: string, after: seq<Byte>, keepNul: bool)
    requires i < |cur| && Ascii(s) && |s| + 1 < TWO_32
    ensures LoadLines(cur, i, buf, SaveLine(s) + after, keepNul) ==
            LoadLines(cur[i := Converted(s, keepNul)], i + 1, StringBytes(s) + [0], after, keepNul)
  {
    LineRoundTrip(s, buf, after, keepNul);
  }

  lemma PrefixUpdate<T>(cur: seq<T>, i: nat, x: T, tail: seq<T>)
    requires i < |cur|
    ensures cur[i := x][..i + 1] + tail == cur[..i] + ([x] + tail)
  {
    assert cur[i := x][..i + 1] == cur[..i] + [x];
  }

  lemma StorableTail(lines: seq<string>)
    requires Storable(lines) && lines != []
    ensures Ascii(lines[0]) && |lines[0]| + 1 < TWO_32 && Storable(lines[1..])
  {
    assert forall j :: 0 <= j < |lines| - 1 ==> lines[1..][j] == lines[j + 1];
  }

  lemma LoadedStep(lines: seq<string>, keepNul: bool)
    requires lines != []
    ensures Loaded(lines, keepNul) == [Converted(lines[0], keepNul)] + Loaded(lines[1..], keepNul)
  {
  }

  /** Loading saved lines into positions i, i + 1, ... of a list. */
  lemma {:induction false} LinesRoundTrip(cur: seq<string>, suffix: seq<string>, i: nat, buf: seq<Byte>,
                                          rest: seq<Byte>, keepNul: bool)
    requires Storable(suffix) && i + |suffix| == |cur|
    ensures LoadLines(cur, i, buf, SaveLines(suffix) + rest, keepNul) == Read(cur[..i] + Loaded(suffix, keepNul), rest)
    decreases |suffix|
  {
    if suffix == [] {
      assert cur[..i] + [] == cur;
    } else {
      var s := suffix[0];
      StorableTail(suffix);
      SaveLinesStep(suffix, rest);
      LoadLinesStep(cur, i, buf, s, SaveLines(suffix[1..]) + rest, keepNul);
      LinesRoundTrip(cur[i := Converted(s, keepNul)], suffix[1..], i + 1, StringBytes(s) + [0], rest, keepNul);
      PrefixUpdate(cur, i, Converted(s, keepNul), Loaded(suffix[1..], keepNul));
      LoadedStep(suffix, keepNul);
    }
  }

  /** A list loaded from what the list saved, with either conversion, whatever the list
      held before. */
  lemma StringListLoads(prior: seq<string>, lines: seq<string>, rest: seq<Byte>, keepNul: bool)
    requires Storable(lines)
    ensures LoadStringListWith(prior, SaveStringList(lines) + rest, keepNul) == Read(Loaded(lines, keepNul), rest)
  {
    ReadWordSaved(0, |lines|, SaveLines(lines) + rest);
    assert SaveStringList(lines) + rest == WordBytes(|lines|) + (SaveLines(lines) + rest);
    var cur := Resize(prior, |lines|, "");
    LinesRoundTrip(cur, lines, 0, [], rest, keepNul);
    assert cur[..0] + Loaded(lines, keepNul) == Loaded(lines, keepNul);
  }

  lemma LoadedPlain(lines: seq<string>)
    ensures Loaded(lines, false) == lines
  {
  }

  /** Corrected, loadStringList gives back exactly the saved lines. */
  lemma StringListRoundTrip(prior: seq<string>, lines: seq<string>, rest: seq<Byte>)
    requires Storable(lines)
    ensures LoadStringList(prior, SaveStringList(lines) + rest) == Read(lines, rest)
  {
    StringListLoads(prior, lines, rest, false);
    LoadedPlain(lines);
  }

  /** As written, every loaded string ends in a NUL the saved one did not have. */
  lemma StringListAsWrittenAddsNul(prior: seq<string>, lines: seq<string>, rest: seq<Byte>)
    requires Storable(lines)
    ensures var r := LoadStringListAsWritten(prior, SaveStringList(lines) + rest);
            r.rest == rest && |r.value| == |lines| &&
            forall j :: 0 <= j < |lines| ==> r.value[j] == lines[j] + ['\0'] && r.value[j] != lines[j]
  {
    StringListLoads(prior, lines, rest, true);
  }

  // ---------------------------------------------------------------- the scene

  /** The words of a list of matrices, sixteen per matrix. */
  function MatWords(ms: seq<Mat4>): (r: seq<u32>)
    ensures |r| == 16 * |ms| && |r| % 16 == 0
  {
    if ms == [] then [] else ms[0] + MatWords(ms[1..])
  }

  /** The matrices a list of words holds, sixteen words each. */
  function MatsOf(ws: seq<u32>): (r: seq<Mat4>)
    requires |ws| % 16 == 0
    ensures |r| == |ws| / 16
  {
    if ws == [] then [] else [ws[..16]] + MatsOf(ws[16..])
  }

  lemma {:induction false} MatsRoundTrip(ms: seq<Mat4>)
    ensures MatsOf(MatWords(ms)) == ms
  {
    if ms != [] {
      var ws := MatWords(ms);
      assert ws[..16] == ms[0] && ws[16..] == MatWords(ms[1..]);
      MatsRoundTrip(ms[1..]);
    }
  }

  /** The five qint32 fields of each entry, as the words of their two's complement bits. */
  function HierarchyWords(h: seq<Hierarchy>): (r: seq<u32>)
    ensures |r| == 5 * |h| && |r| % 5 == 0
  {
    if h == [] then []
    else
      var e := h[0];
      [ToU32(e.parent), ToU32(e.firstChild), ToU32(e.nextSibling), ToU32(e.lastSibling), ToU32(e.level)] +
      HierarchyWords(h[1..])
  }

  /** The entries a list of words holds, five qint32 fields each. */
  function HierarchyOf(ws: seq<u32>): (r: seq<Hierarchy>)
    requires |ws| % 5 == 0
    ensures |r| == |ws| / 5
  {
    if ws == [] then []
    else [Hierarchy(AsInt32(ws[0]), AsInt32(ws[1]), AsInt32(ws[2]), AsInt32(ws[3]), AsInt32(ws[4]))] +
         HierarchyOf(ws[5..])
  }

  predicate FitsInt32(e: Hierarchy)
  {
    IsInt32(e.parent) && IsInt32(e.firstChild) && IsInt32(e.nextSibling) &&
    IsInt32(e.lastSibling) && IsInt32(e.level)
  }

  lemma Int32RoundTrip(x: int)
    requires IsInt32(x)
    ensures AsInt32(ToU32(x)) == x
  {
    if x < 0 {
      assert ToU32(x) == x + TWO_32;
    }
  }

  lemma {:induction false} HierarchyRoundTrip(h: seq<Hierarchy>)
    requires forall i :: 0 <= i < |h| ==> FitsInt32(h[i])
    ensures HierarchyOf(HierarchyWords(h)) == h
  {
    if h != [] {
      var e := h[0];
      assert FitsInt32(e);
      Int32RoundTrip(e.parent);
      Int32RoundTrip(e.firstChild);
      Int32RoundTrip(e.nextSibling);
      Int32RoundTrip(e.lastSibling);
      Int32RoundTrip(e.level);
      var ws := HierarchyWords(h);
      assert ws[5..] == HierarchyWords(h[1..]);
      HierarchyRoundTrip(h[1..]);
    }
  }

  /** A value-initialised Hierarchy: every field 0. */
  const BLANK: Hierarchy := Hierarchy(0, 0, 0, 0, 0)

  /** The hash iteration orders saveScene meets: materials, meshes, names. */
  datatype Orders = Orders(materials: seq<u32>, meshes: seq<u32>, names: seq<u32>)

  predicate OrdersOf(d: Merge.SceneData, o: Orders)
  {
    Enumerates(o.materials, d.materialForNode) && Enumerates(o.meshes, d.meshes) &&
    Enumerates(o.names, d.nameForNode)
  }

  /** saveScene writes the name hash and both string tables only when names_ and
      nameForNode_ are both non-empty. */
  predicate NamesSaved(d: Merge.SceneData)
  {
    d.names != [] && d.nameForNode != map[]
  }

  /** The part of saveScene every file has: the node count, the local and the global
      transforms, the hierarchy, then the material and the mesh hashes. */
  function SaveArrays(d: Merge.SceneData, o: Orders): (r: seq<Byte>)
    requires |d.local| == |d.hierarchy| && |d.global| == |d.hierarchy| && OrdersOf(d, o)
    ensures |r| >= 4 && r[..4] == WordBytes(ToU32(|d.hierarchy|))
  {
    var sz := ToU32(|d.hierarchy|);
    WordBytes(sz) +
    (Words(MatWords(d.local[..sz])) + (Words(MatWords(d.global[..sz])) + (Words(HierarchyWords(d.hierarchy[..sz])) +
    (SaveMap(d.materialForNode, o.materials) + SaveMap(d.meshes, o.meshes)))))
  }

  /** The names part: the name hash, the node names, the material names. */
  function SaveNames(d: Merge.SceneData, o: Orders): (r: seq<Byte>)
    requires OrdersOf(d, o)
    ensures |r| >= 4
  {
    SaveMap(d.nameForNode, o.names) + SaveStringList(d.names) + SaveStringList(d.materialNames)
  }

  /** saveScene, corrected: the node count once, then the arrays and the hashes, then the
      names part when there is one. */
  function SaveScene(d: Merge.SceneData, o: Orders): (r: seq<Byte>)
    requires |d.local| == |d.hierarchy| && |d.global| == |d.hierarchy| && OrdersOf(d, o)
    ensures |r| >= 4 && r[..4] == WordBytes(ToU32(|d.hierarchy|))
  {
    SaveArrays(d, o) + (if NamesSaved(d) then SaveNames(d, o) else [])
  }

  /** saveScene as written: the node count is written twice, so the file is the corrected
      file with one more count word at its head. */
  function SaveSceneAsWritten(d: Merge.SceneData, o: Orders): (r: seq<Byte>)
    requires |d.local| == |d.hierarchy| && |d.global| == |d.hierarchy| && OrdersOf(d, o)
    ensures |r| == 4 + |SaveScene(d, o)|
  {
    WordBytes(ToU32(|d.hierarchy|)) + SaveScene(d, o)
  }

  /** sz matrices read over a list resized to sz. */
  function LoadMats(ms: seq<Mat4>, sz: nat, data: seq<Byte>): (r: Read<seq<Mat4>>)
    ensures |r.value| == sz
  {
    var ws := ReadWords(MatWords(Resize(ms, sz, ZERO_MAT)), data);
    Read(MatsOf(ws.value), ws.rest)
  }

  /** sz hierarchy entries read over a list resized to sz. */
  function LoadHierarchy(h: seq<Hierarchy>, sz: nat, data: seq<Byte>): (r: Read<seq<Hierarchy>>)
    ensures |r.value| == sz
  {
    var ws := ReadWords(HierarchyWords(Resize(h, sz, BLANK)), data);
    Read(HierarchyOf(ws.value), ws.rest)
  }

  /** The part of loadScene every file has: the count, the three arrays resized to it and
      read over, then the material and the mesh hashes inserted into. The count variable is
      uninitialised in the source; the model starts it at 0. */
  function LoadArrays(d: Merge.SceneData, data: seq<Byte>): (r: Read<Merge.SceneData>)
    ensures r.value.local == LoadMats(d.local, ReadWord(0, data).value, ReadWord(0, data).rest).value
    ensures |r.value.global| == ReadWord(0, data).value && |r.value.hierarchy| == ReadWord(0, data).value
    ensures r.value.nameForNode == d.nameForNode && r.value.names == d.names && r.value.materialNames == d.materialNames
  {
    var count := ReadWord(0, data);
    var local := LoadMats(d.local, count.value, count.rest);
    var global := LoadMats(d.global, count.value, local.rest);
    var hierarchy := LoadHierarchy(d.hierarchy, count.value, global.rest);
    var materials := LoadMap(d.materialForNode, hierarchy.rest);
    var meshes := LoadMap(d.meshes, materials.rest);
    Read(d.(local := local.value, global := global.value, hierarchy := hierarchy.value,
            materialForNode := materials.value, meshes := meshes.value),
         meshes.rest)
  }

  /** The names part: the name hash inserted into, then both string tables. */
  function LoadNames(d: Merge.SceneData, data: seq<Byte>, keepNul: bool): (r: Merge.SceneData)
    ensures r.local == d.local && r.global == d.global && r.hierarchy == d.hierarchy
    ensures r.materialForNode == d.materialForNode && r.meshes == d.meshes
  {
    var nameMap := LoadMap(d.nameForNode, data);
    var names := LoadStringListWith(d.names, nameMap.rest, keepNul);
    var materialNames := LoadStringListWith(d.materialNames, names.rest, keepNul);
    d.(nameForNode := nameMap.value, names := names.value, materialNames := materialNames.value)
  }

  /** loadScene with the given string conversion: no file leaves the scene as it was; the
      names part is read unless the file ends after the hashes. */
  function LoadSceneWith(d: Merge.SceneData, file: Option<seq<Byte>>, keepNul: bool): (r: Merge.SceneData)
    ensures file == None ==> r == d
    // the three arrays take the count the file starts with
    ensures file.Some? ==> |r.local| == |r.global| == |r.hierarchy| == ReadWord(0, file.value).value
    // a file that ends after the hashes leaves the names as they were
    ensures file.Some? && LoadArrays(d, file.value).rest == [] ==>
              r.nameForNode == d.nameForNode && r.names == d.names && r.materialNames == d.materialNames
  {
    match file
    case None => d
    case Some(data) =>
      var arrays := LoadArrays(d, data);
      if arrays.rest == [] then arrays.value else LoadNames(arrays.value, arrays.rest, keepNul)
  }

  function LoadScene(d: Merge.SceneData, file: Option<seq<Byte>>): (r: Merge.SceneData)
    ensures file == None ==> r == d
    ensures file.Some? ==> |r.local| == |r.global| == |r.hierarchy| == ReadWord(0, file.value).value
    ensures file.Some? && LoadArrays(d, file.value).rest == [] ==>
              r.nameForNode == d.nameForNode && r.names == d.names && r.materialNames == d.materialNames
  {
    LoadSceneWith(d, file, false)
  }

  function LoadSceneAsWritten(d: Merge.SceneData, file: Option<seq<Byte>>): (r: Merge.SceneData)
    ensures file == None ==> r == d
    ensures file.Some? ==> |r.local| == |r.global| == |r.hierarchy| == ReadWord(0, file.value).value
    ensures file.Some? && LoadArrays(d, file.value).rest == [] ==>
              r.nameForNode == d.nameForNode && r.names == d.names && r.materialNames == d.materialNames
  {
    LoadSceneWith(d, file, true)
  }

  /** What the layout can carry back: counts that fit a quint32, qint32 hierarchy fields and
      ASCII names. */
  predicate Saveable(d: Merge.SceneData, o: Orders)
  {
    |d.local| == |d.hierarchy| && |d.global| == |d.hierarchy| && |d.hierarchy| < TWO_32 &&
    (forall i :: 0 <= i < |d.hierarchy| ==> FitsInt32(d.hierarchy[i])) &&
    OrdersOf(d, o) &&
    2 * |o.materials| < TWO_32 && 2 * |o.meshes| < TWO_32 && 2 * |o.names| < TWO_32 &&
    Storable(d.names) && Storable(d.materialNames)
  }

  // ---------------------------------------------------------------- round trips of the scene

  lemma LoadMatsSaved(prior: seq<Mat4>, ms: seq<Mat4>, rest: seq<Byte>)
    ensures LoadMats(prior, |ms|, Words(MatWords(ms)) + rest) == Read(ms, rest)
  {
    ReadWordsSaved(MatWords(Resize(prior, |ms|, ZERO_MAT)), MatWords(ms), rest);
    MatsRoundTrip(ms);
  }

  lemma LoadHierarchySaved(prior: seq<Hierarchy>, h: seq<Hierarchy>, rest: seq<Byte>)
    requires forall i :: 0 <= i < |h| ==> FitsInt32(h[i])
    ensures LoadHierarchy(prior, |h|, Words(HierarchyWords(h)) + rest) == Read(h, rest)
  {
    ReadWordsSaved(HierarchyWords(Resize(prior, |h|, BLANK)), HierarchyWords(h), rest);
    HierarchyRoundTrip(h);
  }

  lemma Regroup(a: seq<Byte>, b: seq<Byte>, c: seq<Byte>, d: seq<Byte>, e: seq<Byte>, f: seq<Byte>, g: seq<Byte>)
    ensures a + (b + (c + (d + (e + f)))) + g == a + (b + (c + (d + (e + (f + g)))))
  {
  }

  /** What loadScene makes of the arrays and the hashes saveScene wrote: the arrays as they
      were, the hashes inserted into what the scene held. */
  lemma LoadArraysSaved(d0: Merge.SceneData, d: Merge.SceneData, o: Orders, rest: seq<Byte>)
    requires Saveable(d, o)
    ensures LoadArrays(d0, SaveArrays(d, o) + rest) ==
            Read(d0.(local := d.local, global := d.global, hierarchy := d.hierarchy,
                     materialForNode := d0.materialForNode + d.materialForNode, meshes := d0.meshes + d.meshes),
                 rest)
  {
    var n := |d.hierarchy|;
    assert d.local[..n] == d.local && d.global[..n] == d.global && d.hierarchy[..n] == d.hierarchy;
    var meshesPart := SaveMap(d.meshes, o.meshes) + rest;
    var materialsPart := SaveMap(d.materialForNode, o.materials) + meshesPart;
    var hierarchyPart := Words(HierarchyWords(d.hierarchy)) + materialsPart;
    var globalPart := Words(MatWords(d.global)) + hierarchyPart;
    var localPart := Words(MatWords(d.local)) + globalPart;
    Regroup(WordBytes(n), Words(MatWords(d.local)), Words(MatWords(d.global)), Words(HierarchyWords(d.hierarchy)),
            SaveMap(d.materialForNode, o.materials), SaveMap(d.meshes, o.meshes), rest);
    assert SaveArrays(d, o) + rest == WordBytes(n) + localPart;
    ReadWordSaved(0, n, localPart);
    LoadMatsSaved(d0.local, d.local, globalPart);
    LoadMatsSaved(d0.global, d.global, hierarchyPart);
    LoadHierarchySaved(d0.hierarchy, d.hierarchy, materialsPart);
    MapRoundTrip(d0.materialForNode, d.materialForNode, o.materials, meshesPart);
    MapRoundTrip(d0.meshes, d.meshes, o.meshes, rest);
  }

  lemma SaveNamesSplit(d: Merge.SceneData, o: Orders, rest: seq<Byte>)
    requires OrdersOf(d, o)
    ensures SaveNames(d, o) + rest ==
            SaveMap(d.nameForNode, o.names) + (SaveStringList(d.names) + (SaveStringList(d.materialNames) + rest))
  {
  }

  /** What loadScene makes of the names part saveScene wrote. */
  lemma LoadNamesSaved(a: Merge.SceneData, d: Merge.SceneData, o: Orders, rest: seq<Byte>, keepNul: bool)
    requires Saveable(d, o)
    ensures LoadNames(a, SaveNames(d, o) + rest, keepNul) ==
            a.(nameForNode := a.nameForNode + d.nameForNode,
               names := Loaded(d.names, keepNul), materialNames := Loaded(d.materialNames, keepNul))
  {
    var materialNamesPart := SaveStringList(d.materialNames) + rest;
    var namesPart := SaveStringList(d.names) + materialNamesPart;
    SaveNamesSplit(d, o, rest);
    MapRoundTrip(a.nameForNode, d.nameForNode, o.names, namesPart);
    StringListLoads(a.names, d.names, materialNamesPart, keepNul);
    StringListLoads(a.materialNames, d.materialNames, rest, keepNul);
  }

  /** What loading a saved scene yields: the arrays and the hashes as LoadArraysSaved says,
      then the names part when it was saved. */
  function Restored(d0: Merge.SceneData, d: Merge.SceneData, keepNul: bool): Merge.SceneData
  {
    var a := d0.(local := d.local, global := d.global, hierarchy := d.hierarchy,
                 materialForNode := d0.materialForNode + d.materialForNode, meshes := d0.meshes + d.meshes);
    if NamesSaved(d)
    then a.(nameForNode := d0.nameForNode + d.nameForNode,
            names := Loaded(d.names, keepNul), materialNames := Loaded(d.materialNames, keepNul))
    else a
  }

  /** loadScene over a file whose fixed part loads as a. */
  lemma LoadSceneOf(d0: Merge.SceneData, data: seq<Byte>, keepNul: bool, a: Read<Merge.SceneData>)
    requires LoadArrays(d0, data) == a
    ensures LoadSceneWith(d0, Some(data), keepNul) ==
            if a.rest == [] then a.value else LoadNames(a.value, a.rest, keepNul)
  {
  }

  lemma AppendEmpty<T>(x: seq<T>)
    ensures x + [] == x
  {
  }

  lemma SaveSceneParts(d: Merge.SceneData, o: Orders)
    requires |d.local| == |d.hierarchy| && |d.global| == |d.hierarchy| && OrdersOf(d, o)
    ensures SaveScene(d, o) == SaveArrays(d, o) + (if NamesSaved(d) then SaveNames(d, o) else [])
  {
  }

  lemma SceneFileLoads(d0: Merge.SceneData, d: Merge.SceneData, o: Orders, keepNul: bool)
    requires Saveable(d, o)
    ensures LoadSceneWith(d0, Some(SaveScene(d, o)), keepNul) == Restored(d0, d, keepNul)
  {
    var tail := if NamesSaved(d) then SaveNames(d, o) else [];
    var a := d0.(local := d.local, global := d.global, hierarchy := d.hierarchy,
                 materialForNode := d0.materialForNode + d.materialForNode, meshes := d0.meshes + d.meshes);
    LoadArraysSaved(d0, d, o, tail);
    SaveSceneParts(d, o);
    LoadSceneOf(d0, SaveScene(d, o), keepNul, Read(a, tail));
    if NamesSaved(d) {
      LoadNamesSaved(a, d, o, [], keepNul);
      AppendEmpty(SaveNames(d, o));
    }
  }

  /** Corrected, loadScene gives back what saveScene wrote: the transforms and the hierarchy
      replace the scene's, the hashes are inserted into the scene's, and the names part is
      loaded exactly when it was saved (otherwise the scene keeps its own). */
  lemma SceneRoundTrip(d0: Merge.SceneData, d: Merge.SceneData, o: Orders)
    requires Saveable(d, o)
    ensures var r := LoadScene(d0, Some(SaveScene(d, o)));
            r.local == d.local && r.global == d.global && r.hierarchy == d.hierarchy &&
            r.materialForNode == d0.materialForNode + d.materialForNode && r.meshes == d0.meshes + d.meshes &&
            (NamesSaved(d) ==>
               r.nameForNode == d0.nameForNode + d.nameForNode && r.names == d.names && r.materialNames == d.materialNames) &&
            (!NamesSaved(d) ==>
               r.nameForNode == d0.nameForNode && r.names == d0.names && r.materialNames == d0.materialNames)
  {
    SceneFileLoads(d0, d, o, false);
    LoadedPlain(d.names);
    LoadedPlain(d.materialNames);
  }

  /** A scene with nothing in it. */
  const EMPTY_DATA: Merge.SceneData := Merge.SceneData([], [], [], map[], map[], map[], [], [])

  lemma RestoredFresh(d: Merge.SceneData)
    requires NamesSaved(d)
    ensures Restored(EMPTY_DATA, d, false) == d
  {
    LoadedPlain(d.names);
    LoadedPlain(d.materialNames);
    assert map[] + d.materialForNode == d.materialForNode;
    assert map[] + d.meshes == d.meshes;
    assert map[] + d.nameForNode == d.nameForNode;
  }

  /** Loaded into an empty scene, a saved scene with names comes back whole. */
  lemma SceneRoundTripFresh(d: Merge.SceneData, o: Orders)
    requires Saveable(d, o) && NamesSaved(d)
    ensures LoadScene(EMPTY_DATA, Some(SaveScene(d, o))) == d
  {
    SceneFileLoads(EMPTY_DATA, d, o, false);
    RestoredFresh(d);
  }

  /** Without names the material names are not saved: whatever the scene held, an empty
      scene loads none back. */
  lemma MaterialNamesNeedNames(d: Merge.SceneData, o: Orders)
    requires Saveable(d, o) && d.names == []
    ensures LoadScene(EMPTY_DATA, Some(SaveScene(d, o))).materialNames == []
  {
    SceneRoundTrip(EMPTY_DATA, d, o);
  }

  /** A read of at least one word over bytes that start with the word w yields w first. */
  lemma ReadWordsFirst(dest: seq<u32>, w: u32, rest: seq<Byte>)
    requires |dest| >= 1
    ensures ReadWords(dest, WordBytes(w) + rest).value[0] == w
  {
    var data := WordBytes(w) + rest;
    var got := Take(data, 4 * |dest|);
    var b := Overlay(Words(dest), got);
    assert got[..4] == WordBytes(w);
    assert b[..4] == WordBytes(w);
    WordsOfAt(b, 0);
    WordRoundTrip(w);
  }

  lemma LoadSceneLocal(d0: Merge.SceneData, data: seq<Byte>, keepNul: bool)
    ensures LoadSceneWith(d0, Some(data), keepNul).local == LoadArrays(d0, data).value.local
  {
    LoadSceneOf(d0, data, keepNul, LoadArrays(d0, data));
  }

  /** Transforms read over bytes that start with the word n start with n. */
  lemma LoadMatsFirst(prior: seq<Mat4>, n: u32, after: seq<Byte>)
    requires n >= 1
    ensures LoadMats(prior, n, WordBytes(n) + after).value[0][0] == n
  {
    var dest := MatWords(Resize(prior, n, ZERO_MAT));
    ReadWordsFirst(dest, n, after);
    var ws := ReadWords(dest, WordBytes(n) + after).value;
    assert MatsOf(ws)[0] == ws[..16];
  }

  /** A file whose first two words are both n loads n as the first word of the first local
      transform. */
  lemma CountReadAsTransform(d0: Merge.SceneData, n: u32, after: seq<Byte>, keepNul: bool)
    requires n >= 1
    ensures var r := LoadSceneWith(d0, Some(WordBytes(n) + (WordBytes(n) + after)), keepNul);
            |r.local| == n && r.local[0][0] == n
  {
    ReadWordSaved(0, n, WordBytes(n) + after);
    LoadSceneLocal(d0, WordBytes(n) + (WordBytes(n) + after), keepNul);
    LoadMatsFirst(d0.local, n, after);
  }

  /** Bytes that start with the word w are w followed by the rest. */
  lemma SplitHead(w: u32, x: seq<Byte>)
    requires |x| >= 4 && x[..4] == WordBytes(w)
    ensures x == WordBytes(w) + x[4..]
  {
  }

  /** As written, the second count word is read as the first word of the first local
      transform: a saved non-empty scene loads back with that word replaced by the node
      count, whichever string conversion is used. */
  lemma CountTwiceShiftsTransforms(d0: Merge.SceneData, d: Merge.SceneData, o: Orders, keepNul: bool)
    requires Saveable(d, o) && |d.hierarchy| >= 1
    ensures var r := LoadSceneWith(d0, Some(SaveSceneAsWritten(d, o)), keepNul);
            |r.local| == |d.hierarchy| && r.local[0][0] == |d.hierarchy|
  {
    SplitHead(|d.hierarchy|, SaveScene(d, o));
    CountReadAsTransform(d0, |d.hierarchy|, SaveScene(d, o)[4..], keepNul);
  }

  /** One node whose transforms are the identity. */
  function OneNode(): Merge.SceneData
  {
    Merge.SceneData([IDENTITY_MAT], [IDENTITY_MAT], [Hierarchy(-1, -1, -1, -1, 0)], map[], map[], map[], [], [])
  }

  /** With the count written twice, the identity's first word, the bits of 1.0f, loads back
      as the count 1; the corrected file loads back the identity. */
  lemma CountTwiceCounterexample()
    ensures var o := Orders([], [], []);
            Saveable(OneNode(), o) &&
            LoadScene(EMPTY_DATA, Some(SaveSceneAsWritten(OneNode(), o))).local != [IDENTITY_MAT] &&
            LoadScene(EMPTY_DATA, Some(SaveScene(OneNode(), o))).local == [IDENTITY_MAT]
  {
    var o := Orders([], [], []);
    assert Saveable(OneNode(), o);
    CountTwiceShiftsTransforms(EMPTY_DATA, OneNode(), o, false);
    SceneRoundTrip(EMPTY_DATA, OneNode(), o);
  }
}
