/**
 The fingerprint of a set of signing keys: the key texts sorted, joined with bars and hashed.
 Hex and base64 are taken as functions; only their alphabets and injectivity matter.
 */
module Fingerprint {
  import opened Bytes

  datatype SignKey = SignKey(ed: bytes, dsa: bytes)

  /** `toB64` and the hex SHA-256 of a text. */
  datatype Codec = Codec(b64: bytes -> string, digest: string -> string) {
    ghost predicate Valid() {
      && (forall b :: '.' !in b64(b) && '|' !in b64(b))
      && (forall a, b :: b64(a) == b64(b) ==> a == b)
      && (forall s :: |digest(s)| == 64)
    }
  }

  /** The assumptions are consistent: spelling bytes with letters beyond the ASCII range meets them. */
  lemma CodecExists() returns (c: Codec)
    ensures c.Valid()
  {
    c := Codec(Spelled, _ => seq(64, _ => '0'));
    forall b ensures '.' !in Spelled(b) && '|' !in Spelled(b) {}
    forall a, b | Spelled(a) == Spelled(b) ensures a == b {
      SpelledOnce(a, b);
    }
  }

  function Spelled(b: bytes): (s: string)
    ensures |s| == |b| && forall i :: 0 <= i < |b| ==> s[i] == (256 + IntOf(b[i])) as char
  {
    seq(|b|, i requires 0 <= i < |b| => (256 + IntOf(b[i])) as char)
  }

  lemma SpelledOnce(a: bytes, b: bytes)
    requires Spelled(a) == Spelled(b)
    ensures a == b
  {
    hide IntOf;
    assert |a| == |Spelled(a)| == |b|;
    forall i | 0 <= i < |a| ensures a[i] == b[i] {
      assert Spelled(a)[i] == Spelled(b)[i];
      IntOfInjective(a[i], b[i]);
    }
  }

  // ---- sorting texts -------------------------------------------------------------

  /** The order of JavaScript's default sort. */
  predicate Leq(a: string, b: string) {
    a == [] || (b != [] && (a[0] < b[0] || (a[0] == b[0] && Leq(a[1..], b[1..]))))
  }

  lemma {:induction false} LeqTotal(a: string, b: string)
    ensures Leq(a, b) || Leq(b, a)
    ensures Leq(a, b) && Leq(b, a) ==> a == b
  {
    if a != [] && b != [] && a[0] == b[0] {
      LeqTotal(a[1..], b[1..]);
      assert a == [a[0]] + a[1..] && b == [b[0]] + b[1..];
    }
  }

  lemma {:induction false} LeqTransitive(a: string, b: string, c: string)
    requires Leq(a, b) && Leq(b, c)
    ensures Leq(a, c)
  {
    if a != [] && a[0] == b[0] && b[0] == c[0] { LeqTransitive(a[1..], b[1..], c[1..]); }
  }

  predicate Sorted(xs: seq<string>) {
    |xs| <= 1 || (Leq(xs[0], xs[1]) && Sorted(xs[1..]))
  }

  function Insert(x: string, xs: seq<string>): (r: seq<string>)
    ensures multiset(r) == multiset(xs) + multiset{x}
  {
    if xs == [] then [x]
    else if Leq(x, xs[0]) then [x] + xs
    else
      assert xs == [xs[0]] + xs[1..];
      [xs[0]] + Insert(x, xs[1..])
  }

  function Sort(xs: seq<string>): (r: seq<string>)
    ensures multiset(r) == multiset(xs)
  {
    if xs == [] then []
    else
      assert xs == [xs[0]] + xs[1..];
      Insert(xs[0], Sort(xs[1..]))
  }

  lemma {:induction false} InsertSorted(x: string, xs: seq<string>)
    requires Sorted(xs)
    ensures Sorted(Insert(x, xs))
  {
    if xs != [] && !Leq(x, xs[0]) {
      LeqTotal(x, xs[0]);
      InsertSorted(x, xs[1..]);
    }
  }

  lemma {:induction false} SortSorted(xs: seq<string>)
    ensures Sorted(Sort(xs))
  {
    if xs != [] {
      SortSorted(xs[1..]);
      InsertSorted(xs[0], Sort(xs[1..]));
    }
  }

  lemma {:induction false} HeadIsLeast(xs: seq<string>, x: string)
    requires Sorted(xs) && x in multiset(xs)
    ensures Leq(xs[0], x)
  {
    LeqTotal(x, x);
    if x != xs[0] {
      assert xs == [xs[0]] + xs[1..];
      HeadIsLeast(xs[1..], x);
      LeqTransitive(xs[0], xs[1], x);
    }
  }

  /** A sorted list is determined by what is in it. */
  lemma {:induction false} SortedUnique(xs: seq<string>, ys: seq<string>)
    requires Sorted(xs) && Sorted(ys) && multiset(xs) == multiset(ys)
    ensures xs == ys
  {
    hide Leq;
    assert |xs| == |multiset(xs)| == |multiset(ys)| == |ys|;
    if xs != [] {
      SameHead(xs, ys);
      MultisetTail(xs);
      MultisetTail(ys);
      SortedUnique(xs[1..], ys[1..]);
      assert xs == [xs[0]] + xs[1..] && ys == [ys[0]] + ys[1..];
    }
  }

  lemma SameHead(xs: seq<string>, ys: seq<string>)
    requires Sorted(xs) && Sorted(ys) && multiset(xs) == multiset(ys) && xs != [] && ys != []
    ensures xs[0] == ys[0]
  {
    hide Leq, Sorted;
    MultisetTail(xs);
    MultisetTail(ys);
    HeadIsLeast(xs, ys[0]);
    HeadIsLeast(ys, xs[0]);
    LeqTotal(xs[0], ys[0]);
  }

  lemma MultisetTail(xs: seq<string>)
    requires xs != []
    ensures xs[0] in multiset(xs) && multiset(xs[1..]) == multiset(xs) - multiset{xs[0]}
  {
    assert xs == [xs[0]] + xs[1..];
  }

  // ---- joining --------------------------------------------------------------------

  function Join(xs: seq<string>): string {
    if xs == [] then ""
    else if |xs| == 1 then xs[0]
    else xs[0] + "|" + Join(xs[1..])
  }

  /** A text free of the separator, followed by the separator or the end, can be read off. */
  lemma {:induction false} SeparatorSplits(sep: char, a: string, b: string, r: string, q: string)
    requires sep !in a && sep !in b && a + r == b + q
    requires (r == [] || r[0] == sep) && (q == [] || q[0] == sep)
    ensures a == b && r == q
  {
    var t := a + r;
    assert t != [] ==> t[0] == (if a != [] then a[0] else sep) && t[0] == (if b != [] then b[0] else sep);
    if a != [] && b != [] {
      assert t[1..] == a[1..] + r && t[1..] == b[1..] + q;
      SeparatorSplits(sep, a[1..], b[1..], r, q);
      assert a == [a[0]] + a[1..] && b == [b[0]] + b[1..];
    } else {
      assert a == [] && b == [];
      assert [] + r == r && [] + q == q;
    }
  }

  ghost predicate NoBars(xs: seq<string>) {
    forall i :: 0 <= i < |xs| ==> '|' !in xs[i] && xs[i] != ""
  }

  lemma JoinEmpty(xs: seq<string>)
    requires NoBars(xs)
    ensures Join(xs) == "" <==> xs == []
  {}

  /** What follows the first text: nothing, or a bar and the rest. */
  function AfterHead(xs: seq<string>): string
    requires xs != []
  {
    if |xs| == 1 then "" else "|" + Join(xs[1..])
  }

  lemma JoinHead(xs: seq<string>)
    requires xs != []
    ensures Join(xs) == xs[0] + AfterHead(xs)
  {}

  lemma AfterHeadInjective(xs: seq<string>, ys: seq<string>)
    requires xs != [] && ys != [] && AfterHead(xs) == AfterHead(ys)
    ensures |xs| == 1 <==> |ys| == 1
    ensures |xs| > 1 ==> Join(xs[1..]) == Join(ys[1..])
  {
    hide Join;
    assert |xs| > 1 ==> AfterHead(xs)[1..] == Join(xs[1..]);
    assert |ys| > 1 ==> AfterHead(ys)[1..] == Join(ys[1..]);
  }

  lemma {:induction false} JoinInjective(xs: seq<string>, ys: seq<string>)
    requires NoBars(xs) && NoBars(ys) && Join(xs) == Join(ys)
    ensures xs == ys
  {
    hide Join;
    JoinEmpty(xs);
    JoinEmpty(ys);
    if xs != [] {
      JoinHead(xs);
      JoinHead(ys);
      SeparatorSplits('|', xs[0], ys[0], AfterHead(xs), AfterHead(ys));
      AfterHeadInjective(xs, ys);
      if |xs| > 1 { JoinInjective(xs[1..], ys[1..]); }
      assert xs == [xs[0]] + xs[1..] && ys == [ys[0]] + ys[1..];
    }
  }

  // ---- the fingerprint ---------------------------------------------------------------

  function KeyText(c: Codec, k: SignKey): string {
    c.b64(k.ed) + "." + c.b64(k.dsa)
  }

  function KeyTexts(c: Codec, keys: seq<SignKey>): (r: seq<string>)
    ensures |r| == |keys|
  {
    if keys == [] then [] else [KeyText(c, keys[0])] + KeyTexts(c, keys[1..])
  }

  /** What is hashed. */
  function Preimage(c: Codec, keys: seq<SignKey>): string {
    Join(Sort(KeyTexts(c, keys)))
  }

  function KeysFingerprint(c: Codec, keys: seq<SignKey>): string {
    c.digest(Preimage(c, keys))
  }

  lemma KeyTextInjective(c: Codec, a: SignKey, b: SignKey)
    requires c.Valid() && KeyText(c, a) == KeyText(c, b)
    ensures a == b
  {
    var x, y := c.b64(a.ed), c.b64(b.ed);
    var r, q := "." + c.b64(a.dsa), "." + c.b64(b.dsa);
    assert KeyText(c, a) == x + r && KeyText(c, b) == y + q;
    SeparatorSplits('.', x, y, r, q);
    assert c.b64(a.dsa) == r[1..] && c.b64(b.dsa) == q[1..];
  }

  lemma {:induction false} TextsHaveNoBars(c: Codec, keys: seq<SignKey>)
    requires c.Valid()
    ensures NoBars(KeyTexts(c, keys))
  {
    if keys != [] { TextsHaveNoBars(c, keys[1..]); }
  }

  lemma {:induction false} TextsCount(c: Codec, keys: seq<SignKey>, k: SignKey)
    requires c.Valid()
    ensures multiset(KeyTexts(c, keys))[KeyText(c, k)] == multiset(keys)[k]
  {
    if keys != [] {
      TextsCount(c, keys[1..], k);
      assert keys == [keys[0]] + keys[1..];
      if KeyText(c, keys[0]) == KeyText(c, k) { KeyTextInjective(c, keys[0], k); }
    }
  }

  lemma SortNoBars(xs: seq<string>)
    requires NoBars(xs)
    ensures NoBars(Sort(xs))
  {
    var ys := Sort(xs);
    forall i | 0 <= i < |ys| ensures '|' !in ys[i] && ys[i] != "" {
      assert ys[i] in multiset(ys);
      assert ys[i] in multiset(xs);
    }
  }

  /** The order of the cards is irrelevant, and nothing else is: what is hashed determines the
      collection of keys, multiplicities included, and is determined by it. */
  lemma PreimageExact(c: Codec, a: seq<SignKey>, b: seq<SignKey>)
    requires c.Valid()
    ensures Preimage(c, a) == Preimage(c, b) <==> multiset(a) == multiset(b)
  {
    var xs, ys := KeyTexts(c, a), KeyTexts(c, b);
    if multiset(a) == multiset(b) {
      SameTexts(c, a, b);
      SortSorted(xs);
      SortSorted(ys);
      SortedUnique(Sort(xs), Sort(ys));
    }
    if Preimage(c, a) == Preimage(c, b) {
      TextsHaveNoBars(c, a);
      TextsHaveNoBars(c, b);
      SortNoBars(xs);
      SortNoBars(ys);
      JoinInjective(Sort(xs), Sort(ys));
      forall k ensures multiset(a)[k] == multiset(b)[k] {
        TextsCount(c, a, k);
        TextsCount(c, b, k);
      }
    }
  }

  lemma SameTexts(c: Codec, a: seq<SignKey>, b: seq<SignKey>)
    requires c.Valid() && multiset(a) == multiset(b)
    ensures multiset(KeyTexts(c, a)) == multiset(KeyTexts(c, b))
  {
    var xs, ys := KeyTexts(c, a), KeyTexts(c, b);
    forall t ensures multiset(xs)[t] == multiset(ys)[t] {
      if t in multiset(xs) {
        var k := KeyOfText(c, a, t);
        TextsCount(c, a, k);
        TextsCount(c, b, k);
      } else if t in multiset(ys) {
        var k := KeyOfText(c, b, t);
        TextsCount(c, a, k);
        TextsCount(c, b, k);
      }
    }
  }

  lemma {:induction false} KeyOfText(c: Codec, keys: seq<SignKey>, t: string) returns (k: SignKey)
    requires t in multiset(KeyTexts(c, keys))
    ensures KeyText(c, k) == t
  {
    if KeyText(c, keys[0]) == t {
      k := keys[0];
    } else {
      assert KeyTexts(c, keys)[1..] == KeyTexts(c, keys[1..]);
      k := KeyOfText(c, keys[1..], t);
    }
  }

  // ---- what a fingerprint says ----------------------------------------------------------

  /** `a` sorts before `b`: it is a beginning of it, or smaller in the first character that differs. */
  predicate Before(a: string, b: string) {
    a <= b || exists k :: 0 <= k < |a| && k < |b| && a[..k] == b[..k] && a[k] < b[k]
  }

  lemma BeforeCons(x: char, a: string, b: string)
    ensures Before([x] + a, [x] + b) <==> Before(a, b)
  {
    var a', b' := [x] + a, [x] + b;
    assert a'[1..] == a && b'[1..] == b;
    if Before(a, b) && !(a <= b) {
      var k :| 0 <= k < |a| && k < |b| && a[..k] == b[..k] && a[k] < b[k];
      assert a'[..k+1] == [x] + a[..k] && b'[..k+1] == [x] + b[..k] && a'[k+1] < b'[k+1];
    }
    if Before(a', b') && !(a' <= b') {
      var k :| 0 <= k < |a'| && k < |b'| && a'[..k] == b'[..k] && a'[k] < b'[k];
      assert a[..k-1] == a'[..k][1..] && b[..k-1] == b'[..k][1..] && a[k-1] < b[k-1];
    }
  }

  lemma {:induction false} LeqMeans(a: string, b: string)
    ensures Leq(a, b) <==> Before(a, b)
  {
    if a != [] && b != [] && a[0] == b[0] {
      LeqMeans(a[1..], b[1..]);
      BeforeCons(a[0], a[1..], b[1..]);
      assert a == [a[0]] + a[1..] && b == [b[0]] + b[1..];
    } else if a != [] && b != [] {
      assert a[..0] == b[..0];
    }
  }

  /** Each key as it is written: both halves in base64, a dot between them. */
  function Written(c: Codec, keys: seq<SignKey>): (texts: seq<string>)
    ensures |texts| == |keys|
  {
    seq(|keys|, i requires 0 <= i < |keys| => c.b64(keys[i].ed) + "." + c.b64(keys[i].dsa))
  }

  lemma {:induction false} TextsAreWritten(c: Codec, keys: seq<SignKey>)
    ensures KeyTexts(c, keys) == Written(c, keys)
  {
    if keys != [] {
      TextsAreWritten(c, keys[1..]);
      assert Written(c, keys) == [Written(c, keys)[0]] + Written(c, keys[1..]);
    }
  }

  lemma {:induction false} AscendingIsSorted(texts: seq<string>)
    requires forall i, j :: 0 <= i < j < |texts| ==> Before(texts[i], texts[j])
    ensures Sorted(texts)
  {
    hide Leq, Before;
    if |texts| > 1 {
      LeqMeans(texts[0], texts[1]);
      AscendingIsSorted(texts[1..]);
    }
  }

  /** The texts with a bar between any two. */
  function Barred(texts: seq<string>): string {
    if texts == [] then "" else Barred(texts[..|texts|-1]) + (if |texts| == 1 then "" else "|") + texts[|texts|-1]
  }

  lemma {:induction false} JoinSnoc(texts: seq<string>, t: string)
    ensures Join(texts + [t]) == if texts == [] then t else Join(texts) + "|" + t
  {
    if texts == [] {
      assert texts + [t] == [t];
    } else {
      assert (texts + [t])[1..] == texts[1..] + [t];
      JoinSnoc(texts[1..], t);
      if |texts| > 1 {
        assert texts[0] + "|" + (Join(texts[1..]) + "|" + t) == texts[0] + "|" + Join(texts[1..]) + "|" + t;
      }
    }
  }

  lemma {:induction false} JoinIsBarred(texts: seq<string>)
    ensures Join(texts) == Barred(texts)
  {
    if texts != [] {
      var init, t := texts[..|texts|-1], texts[|texts|-1];
      JoinIsBarred(init);
      JoinSnoc(init, t);
      assert texts == init + [t];
      assert "" + "" + t == t;
    }
  }

  /** The fingerprint of a set of keys is the digest of their written forms, in ascending order, with bars
      between them. */
  lemma FingerprintIs(c: Codec, keys: seq<SignKey>, texts: seq<string>)
    requires multiset(texts) == multiset(Written(c, keys))
    requires forall i, j :: 0 <= i < j < |texts| ==> Before(texts[i], texts[j])
    ensures KeysFingerprint(c, keys) == c.digest(Barred(texts))
  {
    hide Leq, Before, Sorted, Join, Barred;
    TextsAreWritten(c, keys);
    AscendingIsSorted(texts);
    SortSorted(KeyTexts(c, keys));
    SortedUnique(Sort(KeyTexts(c, keys)), texts);
    JoinIsBarred(texts);
  }

  /** The digest tells the two texts that are hashed for these key sets apart. (No digest tells all texts
      apart, so nothing can be asked of every pair.) */
  predicate ToldApart(c: Codec, a: seq<SignKey>, b: seq<SignKey>) {
    c.digest(Preimage(c, a)) == c.digest(Preimage(c, b)) ==> Preimage(c, a) == Preimage(c, b)
  }

  /** Two key sets have the same fingerprint exactly when they hold the same keys equally often. */
  lemma FingerprintExact(c: Codec, a: seq<SignKey>, b: seq<SignKey>)
    requires c.Valid() && ToldApart(c, a, b)
    ensures KeysFingerprint(c, a) == KeysFingerprint(c, b) <==> multiset(a) == multiset(b)
  {
    hide Preimage;
    PreimageExact(c, a, b);
  }
}
