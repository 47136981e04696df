/**
 Building blocks of the wire format: laying sections end to end and cutting them apart again, arrays
 of fixed-size records, and names that end at their first NUL.
 */
module Wire {
  import opened Words

  // ---- Sections laid end to end ----

  function Join(xs: seq<Bytes>): Bytes
  {
    if xs == [] then [] else xs[0] + Join(xs[1..])
  }

  function Sum(lens: seq<nat>): nat
  {
    if lens == [] then 0 else lens[0] + Sum(lens[1..])
  }

  function Lens(xs: seq<Bytes>): (ls: seq<nat>)
    ensures |ls| == |xs|
  {
    if xs == [] then [] else [|xs[0]|] + Lens(xs[1..])
  }

  /** Consecutive slices of the given lengths. */
  function Cut(b: Bytes, lens: seq<nat>): (xs: seq<Bytes>)
    requires Sum(lens) <= |b|
    ensures |xs| == |lens|
  {
    if lens == [] then [] else [b[..lens[0]]] + Cut(b[lens[0]..], lens[1..])
  }

  lemma DropDrop(b: Bytes, i: nat, j: nat)
    requires i + j <= |b|
    ensures b[i..][j..] == b[i + j..]
  {
  }

  lemma SplitAt(b: Bytes, i: nat)
    requires i <= |b|
    ensures b[..i] + b[i..] == b
  {
  }

  lemma TakeDrop(x: Bytes, y: Bytes)
    ensures (x + y)[..|x|] == x && (x + y)[|x|..] == y
  {
  }

  lemma {:induction false} LensUnfold(xs: seq<Bytes>)
    requires xs != []
    ensures Sum(Lens(xs)) == |xs[0]| + Sum(Lens(xs[1..])) && Lens(xs)[1..] == Lens(xs[1..]) && Lens(xs)[0] == |xs[0]|
  {
    hide Sum;
    SumUnfold(Lens(xs));
  }

  lemma {:induction false} SumUnfold(lens: seq<nat>)
    requires lens != []
    ensures Sum(lens) == lens[0] + Sum(lens[1..])
  {
  }

  /** Cutting what was joined gives the sections back, and leaves exactly what followed them. */
  lemma {:induction false} CutJoined(xs: seq<Bytes>, tail: Bytes)
    ensures |Join(xs)| == Sum(Lens(xs))
    ensures Cut(Join(xs) + tail, Lens(xs)) == xs
    ensures (Join(xs) + tail)[Sum(Lens(xs))..] == tail
  {
    if xs != [] {
      var rest := Join(xs[1..]) + tail;
      CutJoined(xs[1..], tail);
      LensUnfold(xs);
      Associates(xs[0], Join(xs[1..]), tail);
      TakeDrop(xs[0], rest);
      DropDrop(xs[0] + rest, |xs[0]|, Sum(Lens(xs[1..])));
      hide Lens, Sum;
    }
  }

  lemma {:induction false} CutUnfold(b: Bytes, lens: seq<nat>)
    requires lens != [] && Sum(lens) <= |b|
    ensures lens[0] + Sum(lens[1..]) == Sum(lens)
    ensures Join(Cut(b, lens)) == b[..lens[0]] + Join(Cut(b[lens[0]..], lens[1..]))
    ensures Lens(Cut(b, lens)) == [lens[0]] + Lens(Cut(b[lens[0]..], lens[1..]))
  {
    SumUnfold(lens);
    hide Sum;
    assert Cut(b, lens)[1..] == Cut(b[lens[0]..], lens[1..]);
  }

  /** The slices cut from a byte string are its consecutive parts. */
  lemma {:induction false} JoinCut(b: Bytes, lens: seq<nat>)
    requires Sum(lens) <= |b|
    ensures Join(Cut(b, lens)) + b[Sum(lens)..] == b && Lens(Cut(b, lens)) == lens
  {
    if lens != [] {
      CutUnfold(b, lens);
      hide Cut, Join, Lens, Sum;
      var head, rest := b[..lens[0]], b[lens[0]..];
      JoinCut(rest, lens[1..]);
      DropDrop(b, lens[0], Sum(lens[1..]));
      Associates(head, Join(Cut(rest, lens[1..])), b[Sum(lens)..]);
      SplitAt(b, lens[0]);
    }
  }

  lemma {:induction false} LensAt(xs: seq<Bytes>, i: nat)
    requires i < |xs|
    ensures Lens(xs)[i] == |xs[i]|
  {
    if i > 0 {
      LensAt(xs[1..], i - 1);
    }
  }

  lemma {:induction false} JoinSnoc(xs: seq<Bytes>, x: Bytes)
    ensures Join(xs + [x]) == Join(xs) + x
  {
    if xs == [] {
      assert [x][1..] == [];
    } else {
      assert (xs + [x])[1..] == xs[1..] + [x];
      JoinSnoc(xs[1..], x);
    }
  }

  // ---- Arrays of fixed-size records ----

  /** How a record is written as 32-bit words, and read back. */
  datatype Layout<!T> = Layout(words: T -> seq<u32>, read: seq<u32> -> T, size: nat)

  /** Reading and writing are inverse, at a fixed number of words. */
  ghost predicate Faithful<T(!new)>(l: Layout<T>)
  {
    && l.size > 0
    && (forall x: T :: |l.words(x)| == l.size && l.read(l.words(x)) == x)
    && (forall ws: seq<u32> :: |ws| == l.size ==> l.words(l.read(ws)) == ws)
  }

  function WriteAll<T>(l: Layout<T>, xs: seq<T>): Bytes
  {
    if xs == [] then [] else WordBytes(l.words(xs[0])) + WriteAll(l, xs[1..])
  }

  /** The first record of `b`. */
  function ReadOne<T>(l: Layout<T>, b: Bytes): T
    requires 4 * l.size <= |b|
  {
    l.read(BytesToWords(b[..4 * l.size]))
  }

  function ReadAll<T>(l: Layout<T>, b: Bytes, n: nat): (xs: seq<T>)
  {
    if n == 0 || |b| < 4 * l.size then []
    else [ReadOne(l, b)] + ReadAll(l, b[4 * l.size..], n - 1)
  }

  lemma {:induction false} WriteAllLength<T(!new)>(l: Layout<T>, xs: seq<T>)
    requires Faithful(l)
    ensures |WriteAll(l, xs)| == |xs| * (4 * l.size)
  {
    if xs != [] {
      WriteAllLength(l, xs[1..]);
      OneMore(|xs|, 4 * l.size);
    }
  }

  lemma OneMore(n: nat, k: nat)
    requires n > 0
    ensures n * k == k + (n - 1) * k
  {
  }

  lemma {:induction false} ReadWritten<T(!new)>(l: Layout<T>, xs: seq<T>)
    requires Faithful(l)
    ensures ReadAll(l, WriteAll(l, xs), |xs|) == xs
  {
    if xs != [] {
      var ws := l.words(xs[0]);
      ReadWritten(l, xs[1..]);
      TakeDrop(WordBytes(ws), WriteAll(l, xs[1..]));
      WordsRoundTrip(ws);
      hide WordBytes, BytesToWords;
      assert |ws| == l.size && l.read(ws) == xs[0];
    }
  }

  lemma RecordRewrites<T(!new)>(l: Layout<T>, head: Bytes)
    requires Faithful(l) && |head| == 4 * l.size
    ensures WordBytes(l.words(l.read(BytesToWords(head)))) == head
  {
    BytesRoundTrip(head);
    assert |BytesToWords(head)| == l.size;
    hide WordBytes, BytesToWords;
  }

  lemma ArrayStep<T(!new)>(l: Layout<T>, b: Bytes, n: nat)
    requires Faithful(l) && n > 0 && |b| >= 4 * l.size
    ensures ReadAll(l, b, n) == [ReadOne(l, b)] + ReadAll(l, b[4 * l.size..], n - 1)
    ensures WordBytes(l.words(ReadOne(l, b))) == b[..4 * l.size]
  {
    RecordRewrites(l, b[..4 * l.size]);
    hide WordBytes, BytesToWords;
  }

  lemma OneFewer(n: nat, k: nat, len: nat)
    requires n > 0 && len == n * k
    ensures len >= k && len - k == (n - 1) * k
  {
    var m := n - 1;
    assert n * k == m * k + k;
    assert m * k >= 0;
  }

  lemma NoRecords<T>(l: Layout<T>, b: Bytes)
    requires b == []
    ensures ReadAll(l, b, 0) == [] && WriteAll(l, ReadAll(l, b, 0)) == b
  {
  }

  /** An array section is the encoding of the records read from it. */
  lemma {:induction false} WrittenRead<T(!new)>(l: Layout<T>, b: Bytes, n: nat)
    requires Faithful(l) && |b| == n * (4 * l.size)
    ensures WriteAll(l, ReadAll(l, b, n)) == b && |ReadAll(l, b, n)| == n
  {
    hide ReadAll, WriteAll, ReadOne, WordBytes, BytesToWords, Faithful;
    if n == 0 {
      assert b == [];
      NoRecords(l, b);
    } else {
      var k := 4 * l.size;
      OneFewer(n, k, |b|);
      WrittenRead(l, b[k..], n - 1);
      ArrayStep(l, b, n);
      WriteAllOne(l, ReadOne(l, b), ReadAll(l, b[k..], n - 1));
      SplitAt(b, k);
    }
  }

  lemma {:induction false} WriteAllConcat<T>(l: Layout<T>, xs: seq<T>, ys: seq<T>)
    ensures WriteAll(l, xs + ys) == WriteAll(l, xs) + WriteAll(l, ys)
  {
    if xs == [] {
      assert xs + ys == ys;
    } else {
      assert (xs + ys)[1..] == xs[1..] + ys;
      WriteAllConcat(l, xs[1..], ys);
      Associates(WordBytes(l.words(xs[0])), WriteAll(l, xs[1..]), WriteAll(l, ys));
    }
    hide WordBytes;
  }

  lemma {:induction false} WriteAllOne<T>(l: Layout<T>, x: T, ys: seq<T>)
    ensures WriteAll(l, [x] + ys) == WordBytes(l.words(x)) + WriteAll(l, ys)
  {
    hide WordBytes;
    assert ([x] + ys)[1..] == ys;
  }

  /** Word `k` of record `i` follows the `n` bytes of the records before it. */
  lemma RecordWord<T(!new)>(l: Layout<T>, xs: seq<T>, i: nat, k: nat, n: nat)
    requires i < |xs| && k < |l.words(xs[i])| && n == |WriteAll(l, xs[..i])|
    ensures n + 4 * k + 4 <= |WriteAll(l, xs)|
    ensures U32At(WriteAll(l, xs), n + 4 * k) == l.words(xs[i])[k]
  {
    var ws := l.words(xs[i]);
    hide WriteAll, U32At, WordBytes;
    assert xs == xs[..i] + ([xs[i]] + xs[i + 1..]);
    WriteAllConcat(l, xs[..i], [xs[i]] + xs[i + 1..]);
    WriteAllOne(l, xs[i], xs[i + 1..]);
    WordField(ws, k);
    PlacedWord(WriteAll(l, xs[..i]), WordBytes(ws), WriteAll(l, xs[i + 1..]), n, 4 * k);
  }

  lemma PlacedWord(a: Bytes, b: Bytes, c: Bytes, n: nat, o: nat)
    requires |a| == n && o + 4 <= |b|
    ensures n + o + 4 <= |a + (b + c)| && U32At(a + (b + c), n + o) == U32At(b, o)
  {
    hide U32At;
    WordAtPlace(b, c, o);
    WordAtPlace(a, b + c, n + o);
  }

  lemma WordAtPlace(a: Bytes, b: Bytes, o: nat)
    ensures o + 4 <= |a| ==> U32At(a + b, o) == U32At(a, o)
    ensures |a| <= o && o + 4 <= |a| + |b| ==> U32At(a + b, o) == U32At(b, o - |a|)
  {
  }

  // ---- Names ----

  predicate NoNul(s: Bytes) { forall i :: 0 <= i < |s| ==> s[i] != 0 }

  /** The bytes before the first NUL, if there is one. */
  function UntilNul(b: Bytes): Option<Bytes>
  {
    if b == [] then None
    else if b[0] == 0 then Some([])
    else
      match UntilNul(b[1..])
      case None => None
      case Some(s) => Some([b[0]] + s)
  }

  lemma {:induction false} NameRoundTrip(s: Bytes, junk: Bytes)
    requires NoNul(s)
    ensures UntilNul(s + [0] + junk) == Some(s)
  {
    var b := s + [0] + junk;
    if s == [] {
      assert b[0] == 0;
    } else {
      NameRoundTrip(s[1..], junk);
      assert b[0] == s[0] && b[1..] == s[1..] + [0] + junk;
      assert [s[0]] + s[1..] == s;
    }
  }

  /** A name that was found is free of NULs, and a NUL follows it. */
  lemma {:induction false} FoundName(b: Bytes)
    requires UntilNul(b).Some?
    ensures NoNul(UntilNul(b).value) && UntilNul(b).value + [0] <= b
  {
    if b[0] != 0 {
      FoundName(b[1..]);
      var s := UntilNul(b[1..]).value;
      assert ([b[0]] + s) + [0] == [b[0]] + (s + [0]);
      assert b == [b[0]] + b[1..];
    }
  }
}
