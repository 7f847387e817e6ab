/** The content fingerprint of a flat message catalog: SHA-256 over a text that spells the catalog out. */
module Fingerprint {
  import opened GoStrings
  import opened Decimal
  import opened Sorting

  type Messages = map<string, string>

  // ----- The digested text

  /** len of a Go string: the bytes of its UTF-8 form. */
  function Width(c: char): (n: nat)
    ensures 1 <= n <= 4
  {
    var x := c as int;
    if x < 0x80 then 1 else if x < 0x800 then 2 else if x < 0x1_0000 then 3 else 4
  }

  function ByteLength(s: string): nat {
    if s == "" then 0 else Width(s[0]) + ByteLength(s[1..])
  }

  /** One string behind a tag and its length. */
  function Item(tag: string, value: string): string {
    tag + (Render(ByteLength(value)) + ([':'] + value))
  }

  /** Later strings are appended to the builder. */
  function Items(tag: string, values: seq<string>): string {
    if values == [] then "" else Item(tag, values[0]) + Items(tag, values[1..])
  }

  /** Keys in the given order, each followed by its message. */
  function KeyValues(messages: Messages, keys: seq<string>): seq<string>
    requires forall k :: k in keys ==> k in messages
  {
    if keys == [] then [] else [keys[0], messages[keys[0]]] + KeyValues(messages, keys[1..])
  }

  lemma LessIsTotal()
    ensures StrictTotalOrder(Less)
  {
    forall a, b, c ensures !Less(a, a) && (Less(a, b) && Less(b, c) ==> Less(a, c)) {
      LessIsStrictTotalOrder(a, b, c);
    }
    forall a, b | a != b ensures Less(a, b) || Less(b, a) { LessIsStrictTotalOrder(a, b, a); }
  }

  ghost function SortedKeys(messages: Messages): (ks: seq<string>)
    ensures forall k :: k in ks <==> k in messages
  {
    LessIsTotal();
    SortedSet(Less, messages.Keys)
  }

  const TAG := "str:"
  const OPEN := "flat{"

  ghost function DigestedText(messages: Messages): string {
    OPEN + (Items(TAG, KeyValues(messages, SortedKeys(messages))) + ['}'])
  }

  // ----- The digest

  type Byte = x: int | 0 <= x < 256

  /** What sha256.Sum256 returns. */
  type Digest = ds: seq<Byte> | |ds| == 32 witness seq(32, _ => 0)

  function HexChar(n: nat): (c: char)
    requires n < 16
    ensures IsHex(c)
  {
    if n < 10 then '0' + n as char else 'a' + (n - 10) as char
  }

  predicate IsHex(c: char) { '0' <= c <= '9' || 'a' <= c <= 'f' }

  predicate HexText(s: string) { forall i :: 0 <= i < |s| ==> IsHex(s[i]) }

  /** hex.EncodeToString. */
  function Hex(bytes: seq<Byte>): (r: string)
    ensures |r| == 2 * |bytes| && HexText(r)
  {
    if bytes == [] then "" else [HexChar(bytes[0] / 16), HexChar(bytes[0] % 16)] + Hex(bytes[1..])
  }

  /** 32 hexadecimal characters. `hash` stands for SHA-256. */
  ghost function FingerprintOf(hash: string -> Digest, messages: Messages): (r: string)
    ensures |r| == 32 && HexText(r)
  {
    Hex(hash(DigestedText(messages)))[..32]
  }

  method SortKeys(messages: Messages) returns (sorted: seq<string>)
    ensures sorted == SortedKeys(messages)
  {
    var keys: seq<string> := [];
    var remaining := messages.Keys;
    while remaining != {}
      invariant remaining <= messages.Keys
      invariant forall k :: k in keys <==> k in messages && k !in remaining
      invariant NoRepeats(keys)
    {
      var key :| key in remaining;
      remaining := remaining - {key};
      assert (keys + [key])[..|keys|] == keys;
      keys := keys + [key];
    }
    LessIsTotal();
    assert Enumerates(keys, messages.Keys);
    EnumerationSorts(Less, messages.Keys, keys);
    sorted := SortSeq(Less, keys);
  }

  method WriteItems(tag: string, messages: Messages, sorted: seq<string>) returns (builder: string)
    requires forall k :: k in sorted ==> k in messages
    ensures builder == Items(tag, KeyValues(messages, sorted))
  {
    builder := "";
    for n := 0 to |sorted|
      invariant builder + Items(tag, KeyValues(messages, sorted[n..])) == Items(tag, KeyValues(messages, sorted))
    {
      var key := sorted[n];
      assert key in sorted;
      assert sorted[n..][0] == key && sorted[n..][1..] == sorted[n + 1..];
      TwoItems(tag, messages, sorted[n..]);
      Assoc(builder, Item(tag, key), Item(tag, messages[key]));
      Assoc(builder, Item(tag, key) + Item(tag, messages[key]), Items(tag, KeyValues(messages, sorted[n + 1..])));
      builder := builder + Item(tag, key);
      builder := builder + Item(tag, messages[key]);
    }
    assert sorted[|sorted|..] == [] && builder + "" == builder;
  }

  /** The function as written: enumerate the map in any order, sort, append, digest. */
  method RuntimeBundleFingerprint(hash: string -> Digest, messages: Messages) returns (r: string)
    ensures r == FingerprintOf(hash, messages)
  {
    var keys := SortKeys(messages);
    var body := WriteItems(TAG, messages, keys);
    r := Hex(hash(OPEN + (body + ['}'])))[..32];
  }

  lemma TwoItems(tag: string, messages: Messages, keys: seq<string>)
    requires keys != [] && forall k :: k in keys ==> k in messages
    ensures Items(tag, KeyValues(messages, keys))
            == (Item(tag, keys[0]) + Item(tag, messages[keys[0]])) + Items(tag, KeyValues(messages, keys[1..]))
  {
    var all, rest := KeyValues(messages, keys), KeyValues(messages, keys[1..]);
    assert all[1..] == [messages[keys[0]]] + rest && all[1..][1..] == rest;
    Assoc(Item(tag, keys[0]), Item(tag, messages[keys[0]]), Items(tag, rest));
  }

  // ----- The digested text determines the catalog

  /** Of two texts with a common extension, equal byte lengths mean equal texts. */
  lemma {:induction false} LengthCuts(a: string, x: string, b: string, y: string)
    requires a + x == b + y && ByteLength(a) == ByteLength(b)
    ensures a == b && x == y
  {
    if a == "" || b == "" {
      assert a == "" && b == "";
      assert x == "" + x && y == "" + y;
    } else {
      assert (a + x)[0] == a[0] && (b + y)[0] == b[0];
      assert (a + x)[1..] == a[1..] + x && (b + y)[1..] == b[1..] + y;
      LengthCuts(a[1..], x, b[1..], y);
      assert a == [a[0]] + a[1..] && b == [b[0]] + b[1..];
    }
  }

  /** A text up to the first separator. */
  lemma {:induction false} SeparatorCuts(a: string, x: string, b: string, y: string, sep: char)
    requires sep !in a && sep !in b && a + ([sep] + x) == b + ([sep] + y)
    ensures a == b && x == y
  {
    var s, t := a + ([sep] + x), b + ([sep] + y);
    assert s[0] == t[0];
    if a == "" || b == "" {
      assert a == "" && b == "";
      assert s[1..] == x && t[1..] == y;
    } else {
      assert s[1..] == a[1..] + ([sep] + x) && t[1..] == b[1..] + ([sep] + y);
      SeparatorCuts(a[1..], x, b[1..], y, sep);
      assert a == [a[0]] + a[1..] && b == [b[0]] + b[1..];
    }
  }

  lemma ItemThen(tag: string, value: string, rest: string)
    ensures Item(tag, value) + rest == tag + (Render(ByteLength(value)) + ([':'] + (value + rest)))
  {
  }

  lemma SamePrefix(tag: string, x: string, y: string)
    requires tag + x == tag + y
    ensures x == y
  {
    assert (tag + x)[|tag|..] == x && (tag + y)[|tag|..] == y;
  }

  lemma DigitsHoldNoColon(d: string)
    requires AllDigits(d)
    ensures ':' !in d
  {
  }

  lemma ItemCuts(tag: string, a: string, x: string, b: string, y: string)
    requires Item(tag, a) + x == Item(tag, b) + y
    ensures a == b && x == y
  {
    var m, n := ByteLength(a), ByteLength(b);
    ItemThen(tag, a, x);
    ItemThen(tag, b, y);
    SamePrefix(tag, Render(m) + ([':'] + (a + x)), Render(n) + ([':'] + (b + y)));
    DigitsHoldNoColon(Render(m));
    DigitsHoldNoColon(Render(n));
    SeparatorCuts(Render(m), a + x, Render(n), b + y, ':');
    ValueOfRender(m);
    ValueOfRender(n);
    LengthCuts(a, x, b, y);
  }

  /** A list of items followed by an end mark that no tag starts with. */
  lemma {:induction false} ItemsCut(tag: string, a: seq<string>, b: seq<string>, end: char)
    requires tag != "" && tag[0] != end && Items(tag, a) + [end] == Items(tag, b) + [end]
    ensures a == b
  {
    if a == [] || b == [] {
      assert Items(tag, a) == Items(tag, b) by {
        assert (Items(tag, a) + [end])[..|Items(tag, a)|] == Items(tag, a);
        assert (Items(tag, b) + [end])[..|Items(tag, b)|] == Items(tag, b);
      }
    } else {
      var p, q := Items(tag, a[1..]), Items(tag, b[1..]);
      Assoc(Item(tag, a[0]), p, [end]);
      Assoc(Item(tag, b[0]), q, [end]);
      ItemCuts(tag, a[0], p + [end], b[0], q + [end]);
      ItemsCut(tag, a[1..], b[1..], end);
      assert a == [a[0]] + a[1..] && b == [b[0]] + b[1..];
    }
  }

  lemma {:induction false} KeyValuesDetermine(m: Messages, ks: seq<string>, n: Messages, ls: seq<string>)
    requires (forall k :: k in ks ==> k in m) && (forall l :: l in ls ==> l in n)
    requires KeyValues(m, ks) == KeyValues(n, ls)
    ensures ks == ls && forall k :: k in ks ==> m[k] == n[k]
  {
    if ks != [] && ls != [] {
      var a, b := KeyValues(m, ks), KeyValues(n, ls);
      assert a[0] == ks[0] && b[0] == ls[0] && a[1] == m[ks[0]] && b[1] == n[ls[0]];
      assert a[2..] == KeyValues(m, ks[1..]) && b[2..] == KeyValues(n, ls[1..]);
      KeyValuesDetermine(m, ks[1..], n, ls[1..]);
      assert ks == [ks[0]] + ks[1..] && ls == [ls[0]] + ls[1..];
    }
  }

  /** No two catalogs are digested from the same text: lengths keep neighbouring strings apart. */
  lemma DigestedTextIsInjective(m: Messages, n: Messages)
    ensures DigestedText(m) == DigestedText(n) <==> m == n
  {
    if DigestedText(m) == DigestedText(n) {
      var a, b := KeyValues(m, SortedKeys(m)), KeyValues(n, SortedKeys(n));
      SamePrefix(OPEN, Items(TAG, a) + ['}'], Items(TAG, b) + ['}']);
      assert TAG[0] == 's';
      ItemsCut(TAG, a, b, '}');
      KeyValuesDetermine(m, SortedKeys(m), n, SortedKeys(n));
      assert m.Keys == n.Keys;
    }
  }

  /** The first half of SHA-256, 16 bytes, tells these two texts apart if they differ. */
  predicate NoCollision(hash: string -> Digest, s: string, t: string) {
    hash(s)[..16] == hash(t)[..16] ==> s == t
  }

  function HexValue(c: char): nat
    requires IsHex(c)
  {
    if c <= '9' then (c - '0') as nat else 10 + (c - 'a') as nat
  }

  /** Each byte can be read back from its two characters, the higher half first. */
  lemma {:induction false} HexAt(bytes: seq<Byte>, i: nat)
    requires i < |bytes|
    ensures bytes[i] == 16 * HexValue(Hex(bytes)[2 * i]) + HexValue(Hex(bytes)[2 * i + 1])
  {
    if i > 0 {
      HexAt(bytes[1..], i - 1);
      assert Hex(bytes)[2..] == Hex(bytes[1..]);
    }
  }

  lemma {:induction false} HexOfPrefix(bytes: seq<Byte>, n: nat)
    requires n <= |bytes|
    ensures Hex(bytes)[..2 * n] == Hex(bytes[..n])
  {
    if n > 0 {
      HexOfPrefix(bytes[1..], n - 1);
      assert bytes[..n][1..] == bytes[1..][..n - 1];
      var two := [HexChar(bytes[0] / 16), HexChar(bytes[0] % 16)];
      assert Hex(bytes) == two + Hex(bytes[1..]) && Hex(bytes[..n]) == two + Hex(bytes[..n][1..]);
    }
  }

  /** The hexadecimal spelling of bytes tells them apart. */
  lemma HexIsInjective(a: seq<Byte>, b: seq<Byte>)
    ensures Hex(a) == Hex(b) <==> a == b
  {
    if Hex(a) == Hex(b) {
      forall i | 0 <= i < |a| ensures a[i] == b[i] {
        HexAt(a, i);
        HexAt(b, i);
      }
    }
  }

  /** The length of an ASCII text is the number of its characters. */
  lemma {:induction false} AsciiLength(s: string)
    requires forall i :: 0 <= i < |s| ==> s[i] < '\U{80}'
    ensures ByteLength(s) == |s|
  {
    if s != "" { AsciiLength(s[1..]); }
  }

  /** Short of a hash collision, fingerprints identify catalogs. */
  lemma FingerprintIdentifies(hash: string -> Digest, m: Messages, n: Messages)
    requires NoCollision(hash, DigestedText(m), DigestedText(n))
    ensures FingerprintOf(hash, m) == FingerprintOf(hash, n) <==> m == n
  {
    DigestedTextIsInjective(m, n);
    var a, b := hash(DigestedText(m)), hash(DigestedText(n));
    HexOfPrefix(a, 16);
    HexOfPrefix(b, 16);
    HexIsInjective(a[..16], b[..16]);
  }
}
