/** Reversible redaction: tokens, their store, and restoring text (ext/token_vault.go, ext/spans.go). */
module TokenVault {
  import opened Wrappers
  import opened Utf8

  const OPEN: byte := 91   // [
  const CLOSE: byte := 93  // ]
  const UNDERSCORE: byte := 95

  // [GUARDY_TOKEN_
  const PREFIX: bytes := [91, 71, 85, 65, 82, 68, 89, 95, 84, 79, 75, 69, 78, 95]
  const GENERIC: bytes := [71, 69, 78, 69, 82, 73, 67]

  /** The characters of a namespace and of a token's inside. */
  predicate TokenByte(b: byte) { 65 <= b <= 90 || 48 <= b <= 57 || b == UNDERSCORE }

  predicate IsNamespace(ns: bytes) { ns != [] && forall i :: 0 <= i < |ns| ==> TokenByte(ns[i]) }

  // ----- namespaces

  function KeepTokenBytes(s: bytes): bytes {
    if s == [] then [] else
      var front, last := KeepTokenBytes(s[..|s| - 1]), s[|s| - 1];
      if TokenByte(last) then front + [last] else front
  }

  function Normalized(upper: bytes -> bytes, namespace: bytes): bytes {
    if namespace == [] || KeepTokenBytes(upper(namespace)) == [] then GENERIC else KeepTokenBytes(upper(namespace))
  }

  /** normalizeNamespace; `upper` stands for strings.ToUpper. */
  method NormalizeNamespace(upper: bytes -> bytes, namespace: bytes) returns (ns: bytes)
    ensures ns == Normalized(upper, namespace)
  {
    if namespace == [] {
      return GENERIC;
    }
    var up := upper(namespace);
    ns := [];
    for i := 0 to |up|
      invariant ns == KeepTokenBytes(up[..i])
    {
      assert up[..i + 1][..i] == up[..i];
      if TokenByte(up[i]) {
        ns := ns + [up[i]];
      }
    }
    assert up[..|up|] == up;
    if ns == [] {
      return GENERIC;
    }
  }

  lemma {:induction false} KeptAreTokenBytes(s: bytes)
    ensures forall i :: 0 <= i < |KeepTokenBytes(s)| ==> TokenByte(KeepTokenBytes(s)[i])
  {
    if s != [] {
      KeptAreTokenBytes(s[..|s| - 1]);
    }
  }

  /** Normalizing is a filter: byte by byte, upper-case letters, digits and underscores stay in place. */
  lemma {:induction false} KeepAppend(a: bytes, b: bytes)
    ensures KeepTokenBytes(a + b) == KeepTokenBytes(a) + KeepTokenBytes(b)
    ensures |b| == 1 ==> KeepTokenBytes(b) == if Between(b[0], 'A', 'Z') || Between(b[0], '0', '9') || b[0] == '_' as int then b else []
    decreases |b|
  {
    if b == [] {
      assert a + b == a;
    } else {
      var front := b[..|b| - 1];
      assert (a + b)[..|a + b| - 1] == a + front;
      KeepAppend(a, front);
    }
    if |b| == 1 {
      assert b[..0] == [];
    }
  }

  /** A normalized namespace is one, and normalizing it again changes nothing when it is already upper case. */
  lemma NormalizedIsNamespace(upper: bytes -> bytes, namespace: bytes)
    ensures IsNamespace(Normalized(upper, namespace))
    ensures var ns := Normalized(upper, namespace); upper(ns) == ns ==> Normalized(upper, ns) == ns
  {
    KeptAreTokenBytes(upper(namespace));
    KeepAll(Normalized(upper, namespace));
  }

  /** Names that differ only in case share a namespace, and only what keeps no character falls back to the generic one. */
  lemma NormalizedIgnoresCase(upper: bytes -> bytes, a: bytes, b: bytes)
    requires a != [] && b != [] && upper(a) == upper(b)
    ensures Normalized(upper, a) == Normalized(upper, b)
    ensures KeepTokenBytes(upper(a)) != [] ==> Normalized(upper, a) == KeepTokenBytes(upper(a))
    ensures KeepTokenBytes(upper(a)) == [] ==> Normalized(upper, a) == Normalized(upper, []) == GENERIC
  {
  }

  lemma {:induction false} KeepAll(s: bytes)
    ensures (forall i :: 0 <= i < |s| ==> TokenByte(s[i])) ==> KeepTokenBytes(s) == s
  {
    if s != [] {
      KeepAll(s[..|s| - 1]);
      assert s == s[..|s| - 1] + [s[|s| - 1]];
    }
  }

  // ----- tokens

  function Decimal(n: nat): bytes {
    if n < 10 then [48 + n] else Decimal(n / 10) + [48 + n % 10]
  }

  function Token(ns: bytes, n: nat): bytes {
    PREFIX + ns + [UNDERSCORE] + Decimal(n) + [CLOSE]
  }

  /** The pair under which a stored original is found again. */
  function Key(ns: bytes, original: bytes): bytes { ns + [0] + original }

  /** Reading digits in base ten. */
  function ReadDecimal(digits: bytes): int {
    if digits == [] then 0 else 10 * ReadDecimal(digits[..|digits| - 1]) + digits[|digits| - 1] - 48
  }

  /** The numeral of n: digits that read back as n, without a leading zero unless n is zero. */
  lemma {:induction false} DecimalIsNumeral(n: nat)
    ensures ReadDecimal(Decimal(n)) == n
    ensures Decimal(n) != [] && forall i :: 0 <= i < |Decimal(n)| ==> '0' as int <= Decimal(n)[i] <= '9' as int
    ensures Decimal(n)[0] == '0' as int ==> n == 0 && |Decimal(n)| == 1
  {
    var d := Decimal(n);
    if n < 10 {
      assert d[..0] == [];
    } else {
      DecimalIsNumeral(n / 10);
      assert d[..|d| - 1] == Decimal(n / 10);
    }
  }

  /** What a token looks like. */
  lemma TokenText(ns: bytes, n: nat)
    ensures Token(ns, n) == Ascii("[GUARDY_TOKEN_") + ns + Ascii("_") + Decimal(n) + Ascii("]")
    ensures GENERIC == Ascii("GENERIC")
  {
    assert PREFIX == Ascii("[GUARDY_TOKEN_");
  }

  lemma LastSeparator(a: bytes, b: bytes, separator: byte, k: nat)
    requires separator !in b
    ensures |a| < k <= |a| + |b| ==> (a + [separator] + b)[k] != separator
  {
    assert |a| < k <= |a| + |b| ==> (a + [separator] + b)[k] == b[k - |a| - 1];
  }

  /** Two texts with the same separator, which the later parts do not contain, agree part by part. */
  lemma SplitAtLast(a: bytes, b: bytes, c: bytes, d: bytes, separator: byte)
    requires separator !in b && separator !in d
    requires a + [separator] + b == c + [separator] + d
    ensures a == c && b == d
  {
    var s := a + [separator] + b;
    assert s[|a|] == separator && s[|c|] == separator;
    LastSeparator(a, b, separator, |c|);
    LastSeparator(c, d, separator, |a|);
    assert s[..|a|] == a && s[..|c|] == c;
    assert s[|a| + 1..] == b && s[|c| + 1..] == d;
  }

  /** Different namespaces or numbers give different tokens, although namespaces may contain digits and underscores. */
  lemma TokenInjective(ns: bytes, m: nat, other: bytes, n: nat)
    requires Token(ns, m) == Token(other, n)
    ensures ns == other && m == n
  {
    var a, b := Token(ns, m), Token(other, n);
    assert a[|PREFIX|..|a| - 1] == ns + [UNDERSCORE] + Decimal(m);
    assert b[|PREFIX|..|b| - 1] == other + [UNDERSCORE] + Decimal(n);
    DecimalIsNumeral(m);
    DecimalIsNumeral(n);
    SplitAtLast(ns, Decimal(m), other, Decimal(n), UNDERSCORE);
  }

  lemma NoZeroInside(ns: bytes, original: bytes, k: nat)
    requires IsNamespace(ns)
    ensures k < |ns| ==> Key(ns, original)[k] != 0
  {
    assert k < |ns| ==> Key(ns, original)[k] == ns[k];
  }

  /** A key belongs to one namespace and one original: no namespace contains the zero byte. */
  lemma KeyInjective(ns: bytes, original: bytes, other: bytes, text: bytes)
    requires IsNamespace(ns) && IsNamespace(other) && Key(ns, original) == Key(other, text)
    ensures ns == other && original == text
  {
    var s := Key(ns, original);
    assert s[|ns|] == 0 && s[|other|] == 0;
    NoZeroInside(other, text, |ns|);
    NoZeroInside(ns, original, |other|);
    assert s[..|ns|] == ns && s[..|other|] == other;
    assert s[|ns| + 1..] == original && s[|other| + 1..] == text;
  }

  // ----- the store

  /** A namespace with an original, and the number it was given. */
  datatype Entry = Entry(ns: bytes, original: bytes)

  /** What the store has to remember of one issued entry. */
  predicate Remembers(nextByNs: map<bytes, nat>, pairs: map<bytes, bytes>, restores: map<bytes, bytes>, e: Entry, n: nat) {
    && IsNamespace(e.ns)
    && e.ns in nextByNs && 0 < n <= nextByNs[e.ns]
    && Key(e.ns, e.original) in pairs && pairs[Key(e.ns, e.original)] == Token(e.ns, n)
    && Token(e.ns, n) in restores && restores[Token(e.ns, n)] == e.original
  }

  predicate AllRemembered(nextByNs: map<bytes, nat>, pairs: map<bytes, bytes>, restores: map<bytes, bytes>, issued: map<Entry, nat>) {
    forall e :: e in issued ==> Remembers(nextByNs, pairs, restores, e, issued[e])
  }

  ghost predicate KeysIssued(pairs: map<bytes, bytes>, issued: map<Entry, nat>) {
    forall k :: k in pairs ==> exists e :: e in issued && k == Key(e.ns, e.original)
  }

  ghost predicate TokensIssued(restores: map<bytes, bytes>, issued: map<Entry, nat>) {
    forall t :: t in restores ==> exists e :: e in issued && t == Token(e.ns, issued[e])
  }

  predicate NumbersDistinct(issued: map<Entry, nat>) {
    forall e, f :: e in issued && f in issued && e.ns == f.ns && issued[e] == issued[f] ==> e == f
  }

  /** Both maps are images of what was issued, under injective keys and tokens: they invert each other. */
  ghost predicate Consistent(nextByNs: map<bytes, nat>, pairs: map<bytes, bytes>, restores: map<bytes, bytes>, issued: map<Entry, nat>) {
    && AllRemembered(nextByNs, pairs, restores, issued)
    && KeysIssued(pairs, issued)
    && TokensIssued(restores, issued)
    && NumbersDistinct(issued)
  }

  /** Issuing the next number of a namespace to a new entry keeps the store consistent. */
  lemma IssueKeeps(nextByNs: map<bytes, nat>, pairs: map<bytes, bytes>, restores: map<bytes, bytes>, issued: map<Entry, nat>,
                   e: Entry, n: nat)
    requires Consistent(nextByNs, pairs, restores, issued)
    requires IsNamespace(e.ns) && e !in issued
    requires n == (if e.ns in nextByNs then nextByNs[e.ns] else 0) + 1
    ensures Token(e.ns, n) !in restores
    ensures Consistent(nextByNs[e.ns := n], pairs[Key(e.ns, e.original) := Token(e.ns, n)],
                       restores[Token(e.ns, n) := e.original], issued[e := n])
  {
    hide Token, Key, IsNamespace, AllRemembered, KeysIssued, TokensIssued, NumbersDistinct;
    FreshToken(nextByNs, pairs, restores, issued, e, n);
    RememberedKeeps(nextByNs, pairs, restores, issued, e, n);
    KeysKeep(pairs, issued, e, n);
    TokensKeep(restores, issued, e, n);
    NumbersKeep(nextByNs, pairs, restores, issued, e, n);
  }

  lemma FreshToken(nextByNs: map<bytes, nat>, pairs: map<bytes, bytes>, restores: map<bytes, bytes>, issued: map<Entry, nat>,
                   e: Entry, n: nat)
    requires AllRemembered(nextByNs, pairs, restores, issued) && TokensIssued(restores, issued)
    requires e.ns in nextByNs ==> n > nextByNs[e.ns]
    ensures Token(e.ns, n) !in restores
  {
    if Token(e.ns, n) in restores {
      var f :| f in issued && Token(e.ns, n) == Token(f.ns, issued[f]);
      assert Remembers(nextByNs, pairs, restores, f, issued[f]);
      TokenInjective(e.ns, n, f.ns, issued[f]);
    }
  }

  lemma RememberedKeeps(nextByNs: map<bytes, nat>, pairs: map<bytes, bytes>, restores: map<bytes, bytes>, issued: map<Entry, nat>,
                        e: Entry, n: nat)
    requires AllRemembered(nextByNs, pairs, restores, issued) && IsNamespace(e.ns) && e !in issued && n > 0
    requires Token(e.ns, n) !in restores && (e.ns in nextByNs ==> n >= nextByNs[e.ns])
    ensures AllRemembered(nextByNs[e.ns := n], pairs[Key(e.ns, e.original) := Token(e.ns, n)],
                          restores[Token(e.ns, n) := e.original], issued[e := n])
  {
    hide Token, Key, IsNamespace;
    forall f | f in issued
      ensures Remembers(nextByNs[e.ns := n], pairs[Key(e.ns, e.original) := Token(e.ns, n)],
                        restores[Token(e.ns, n) := e.original], f, issued[f])
    {
      StillRemembers(nextByNs, pairs, restores, e, n, f, issued[f]);
    }
  }

  lemma KeysKeep(pairs: map<bytes, bytes>, issued: map<Entry, nat>, e: Entry, n: nat)
    requires KeysIssued(pairs, issued)
    ensures KeysIssued(pairs[Key(e.ns, e.original) := Token(e.ns, n)], issued[e := n])
  {
    hide Token, Key;
    var key, issued' := Key(e.ns, e.original), issued[e := n];
    forall k | k in pairs || k == key
      ensures exists f :: f in issued' && k == Key(f.ns, f.original)
    {
      if k == key {
        assert e in issued';
      } else {
        var f :| f in issued && k == Key(f.ns, f.original);
        assert f in issued';
      }
    }
  }

  lemma TokensKeep(restores: map<bytes, bytes>, issued: map<Entry, nat>, e: Entry, n: nat)
    requires TokensIssued(restores, issued) && e !in issued
    ensures TokensIssued(restores[Token(e.ns, n) := e.original], issued[e := n])
  {
    hide Token, Key;
    var token, issued' := Token(e.ns, n), issued[e := n];
    forall t | t in restores || t == token
      ensures exists f :: f in issued' && t == Token(f.ns, issued'[f])
    {
      if t == token {
        assert e in issued' && t == Token(e.ns, issued'[e]);
      } else {
        var f :| f in issued && t == Token(f.ns, issued[f]);
        assert f in issued' && issued'[f] == issued[f];
      }
    }
  }

  lemma NumbersKeep(nextByNs: map<bytes, nat>, pairs: map<bytes, bytes>, restores: map<bytes, bytes>, issued: map<Entry, nat>,
                    e: Entry, n: nat)
    requires AllRemembered(nextByNs, pairs, restores, issued) && NumbersDistinct(issued)
    requires e.ns in nextByNs ==> n > nextByNs[e.ns]
    ensures NumbersDistinct(issued[e := n])
  {
    hide Token, Key, IsNamespace;
    assert forall f :: f in issued ==> Remembers(nextByNs, pairs, restores, f, issued[f]);
  }

  lemma StillRemembers(nextByNs: map<bytes, nat>, pairs: map<bytes, bytes>, restores: map<bytes, bytes>,
                       e: Entry, n: nat, f: Entry, m: nat)
    requires Remembers(nextByNs, pairs, restores, f, m) && f != e && IsNamespace(e.ns)
    requires Token(e.ns, n) !in restores
    requires e.ns in nextByNs ==> n >= nextByNs[e.ns]
    ensures Remembers(nextByNs[e.ns := n], pairs[Key(e.ns, e.original) := Token(e.ns, n)], restores[Token(e.ns, n) := e.original], f, m)
  {
    hide Token, Key, IsNamespace;
    if Key(f.ns, f.original) == Key(e.ns, e.original) {
      KeyInjective(f.ns, f.original, e.ns, e.original);
    }
  }

  class InMemoryTokenVault {
    var nextByNs: map<bytes, nat>
    var pairs: map<bytes, bytes>
    var restores: map<bytes, bytes>
    ghost var issued: map<Entry, nat>

    ghost predicate Valid()
      reads this
    {
      Consistent(nextByNs, pairs, restores, issued)
    }

    constructor ()
      ensures Valid() && issued == map[] && restores == map[] && nextByNs == map[]
    {
      nextByNs, pairs, restores, issued := map[], map[], map[], map[];
    }

    function Next(ns: bytes): nat
      reads this
    {
      if ns in nextByNs then nextByNs[ns] else 0
    }

    /** Store: the token of this original in this namespace, the same at every call. */
    method Store(upper: bytes -> bytes, namespace: bytes, original: bytes) returns (token: bytes)
      requires Valid()
      modifies this
      ensures Valid()
      ensures var e := Entry(Normalized(upper, namespace), original);
              && e in issued && token == Token(e.ns, issued[e])
              && issued == old(issued)[e := issued[e]]
              && (e in old(issued) ==> issued == old(issued) && restores == old(restores) && nextByNs == old(nextByNs))
              && (e !in old(issued) ==> issued[e] == old(Next(e.ns)) + 1 && nextByNs == old(nextByNs)[e.ns := issued[e]])
      ensures token in restores && restores[token] == original
      ensures forall t :: t in old(restores) ==> t in restores && restores[t] == old(restores)[t]
      ensures forall t :: t in restores ==> t in old(restores) || t == token
    {
      hide Token, Key, IsNamespace, Consistent;
      var ns := NormalizeNamespace(upper, namespace);
      NormalizedIsNamespace(upper, namespace);
      var key := Key(ns, original);
      ghost var e := Entry(ns, original);
      if key in pairs {
        FindsEntry(ns, original);
        assert issued[e := issued[e]] == issued;
        return pairs[key];
      }
      EntryHasKey(e);
      IssueKeeps(nextByNs, pairs, restores, issued, e, Next(ns) + 1);
      nextByNs := nextByNs[ns := Next(ns) + 1];
      token := Token(ns, nextByNs[ns]);
      pairs := pairs[key := token];
      restores := restores[token := original];
      issued := issued[e := nextByNs[ns]];
    }

    lemma FindsEntry(ns: bytes, original: bytes)
      requires Valid() && IsNamespace(ns) && Key(ns, original) in pairs
      ensures var e := Entry(ns, original); e in issued && Remembers(nextByNs, pairs, restores, e, issued[e])
    {
      var e :| e in issued && Key(ns, original) == Key(e.ns, e.original);
      KeyInjective(ns, original, e.ns, e.original);
    }

    lemma EntryHasKey(e: Entry)
      requires Valid()
      ensures e in issued ==> Key(e.ns, e.original) in pairs
    {
      assert e in issued ==> Remembers(nextByNs, pairs, restores, e, issued[e]);
    }

    method Restore(token: bytes) returns (original: Option<bytes>)
      ensures original == if token in restores then Some(restores[token]) else None
    {
      if token in restores {
        return Some(restores[token]);
      }
      return None;
    }

    /** A restorable token is the token of some stored pair with the original it restores to. */
    ghost predicate HasPair(t: bytes)
      requires t in restores
      reads this
    {
      exists ns :: IsNamespace(ns) && Key(ns, restores[t]) in pairs && pairs[Key(ns, restores[t])] == t
    }

    lemma TokenHasPair(t: bytes)
      requires Valid() && t in restores
      ensures HasPair(t)
    {
      var e :| e in issued && t == Token(e.ns, issued[e]);
      assert Remembers(nextByNs, pairs, restores, e, issued[e]);
    }

    /**
     * The maps are mutual inverses: a stored pair's token restores to its original and only that pair has it, and
     * every token that restores to something is the token of a pair stored with it.
     */
    lemma MapsAreInverse(ns: bytes, original: bytes, other: bytes, text: bytes)
      requires Valid() && IsNamespace(ns) && IsNamespace(other)
      requires Key(ns, original) in pairs && Key(other, text) in pairs
      ensures pairs[Key(ns, original)] in restores && restores[pairs[Key(ns, original)]] == original
      ensures pairs[Key(ns, original)] == pairs[Key(other, text)] <==> ns == other && original == text
      ensures forall t :: t in restores ==> HasPair(t)
    {
      forall t | t in restores
        ensures HasPair(t)
      {
        TokenHasPair(t);
      }
      FindsEntry(ns, original);
      FindsEntry(other, text);
      var e, f := Entry(ns, original), Entry(other, text);
      if pairs[Key(ns, original)] == pairs[Key(other, text)] {
        TokenInjective(ns, issued[e], other, issued[f]);
      }
    }
  }
}
