/** Keys, their bytewise order and the name ranges the SQL queries select with.

  A key is a byte string: every char of a model string stands for one byte, and
  SQLite compares TEXT names byte by byte. */
module Keys {

  const COMPACT_KEY: string := "compact_rev_key"
  const FILL_PREFIX: string := "gap-"
  const ONE: char := '\U{01}'
  const NUL: char := '\U{00}'

  predicate Less(a: string, b: string)
    decreases |a|
  {
    b != [] && (a == [] || a[0] < b[0] || (a[0] == b[0] && Less(a[1..], b[1..])))
  }

  predicate AtMost(a: string, b: string) {
    a == b || Less(a, b)
  }

  lemma {:induction false} LessTotal(a: string, b: string)
    ensures a == b || Less(a, b) || Less(b, a)
    ensures !(Less(a, b) && Less(b, a))
    ensures Less(a, b) ==> a != b
    decreases |a|
  {
    if a != [] && b != [] {
      LessTotal(a[1..], b[1..]);
      assert a == [a[0]] + a[1..] && b == [b[0]] + b[1..];
    }
  }

  lemma {:induction false} LessTransitive(a: string, b: string, c: string)
    requires Less(a, b) && Less(b, c)
    ensures Less(a, c)
    decreases |a|
  {
    if a != [] && a[0] == b[0] == c[0] {
      LessTransitive(a[1..], b[1..], c[1..]);
    }
  }

  predicate NulFree(name: string) {
    NUL !in name
  }

  predicate IsFill(name: string) {
    FILL_PREFIX <= name
  }

  lemma CompactKeyIsNotFill()
    ensures !IsFill(COMPACT_KEY)
  {
    assert FILL_PREFIX[0] == 'g' && COMPACT_KEY[0] == 'c';
  }

  /** What the log assumes of the keys its clients write. */
  predicate ClientKey(name: string) {
    NulFree(name) && !IsFill(name) && name != COMPACT_KEY
  }

  predicate EndsWithSlash(prefix: string) {
    prefix != [] && prefix[|prefix| - 1] == '/'
  }

  function GetPrefixRange(prefix: string): (string, string) {
    if EndsWithSlash(prefix) then (prefix, prefix[..|prefix| - 1] + "0")
    else (prefix, prefix + [ONE])
  }

  predicate InRange(name: string, start: string, end: string) {
    AtMost(start, name) && Less(name, end)
  }

  /** The keys a prefix asks for, as the live stream decides it (SQLLog.filter). */
  predicate Matches(name: string, prefix: string) {
    (EndsWithSlash(prefix) && prefix <= name) || name == prefix
  }

  lemma {:induction false} ExtensionRange(stem: string, low: string, high: string, name: string)
    ensures Less(name, stem + high) && AtMost(stem + low, name) && Less(low, high)
        ==> stem <= name && AtMost(low, name[|stem|..]) && Less(name[|stem|..], high)
    ensures stem <= name && AtMost(low, name[|stem|..]) && Less(name[|stem|..], high)
        ==> Less(name, stem + high) && AtMost(stem + low, name)
    decreases |stem|
  {
    if stem == [] {
      assert stem + low == low && stem + high == high && name[|stem|..] == name;
    } else if name != [] {
      ExtensionRange(stem[1..], low, high, name[1..]);
      assert (stem + low)[1..] == stem[1..] + low && (stem + high)[1..] == stem[1..] + high;
      assert stem == [stem[0]] + stem[1..] && name == [name[0]] + name[1..];
      if stem <= name {
        assert name[1..][|stem| - 1..] == name[|stem|..];
        assert stem[1..] <= name[1..];
      }
      if stem + low == name {
        assert stem[1..] + low == name[1..];
      }
      if stem[1..] <= name[1..] && stem[0] == name[0] {
        assert stem <= name;
      }
    }
  }

  lemma SlashRangeExact(stem: string, name: string)
    ensures InRange(name, stem + "/", stem + "0") <==> stem + "/" <= name
  {
    ExtensionRange(stem, "/", "0", name);
    if stem <= name {
      SlashOnly(name[|stem|..]);
      assert name == stem + name[|stem|..];
      if stem + "/" <= name { assert name[|stem|..][0] == '/'; }
    }
  }

  lemma SingletonRangeExact(prefix: string, name: string)
    requires NulFree(name)
    ensures InRange(name, prefix, prefix + [ONE]) <==> name == prefix
  {
    assert prefix + [] == prefix;
    ExtensionRange(prefix, [], [ONE], name);
    if prefix <= name {
      assert name == prefix + name[|prefix|..];
      if name != prefix { assert name[|prefix|..][0] == name[|prefix|] != NUL; }
    }
  }

  /** The SQL range of a prefix holds exactly the keys the stream-side filter lets through. */
  lemma PrefixRangeExact(prefix: string, name: string)
    requires NulFree(name)
    ensures var (start, end) := GetPrefixRange(prefix);
            InRange(name, start, end) <==> Matches(name, prefix)
  {
    if EndsWithSlash(prefix) {
      var stem := prefix[..|prefix| - 1];
      assert prefix == stem + "/";
      SlashRangeExact(stem, name);
    } else {
      SingletonRangeExact(prefix, name);
    }
  }

  lemma SlashOnly(rest: string)
    ensures AtMost("/", rest) && Less(rest, "0") <==> rest != [] && rest[0] == '/'
  {
    if rest != [] && rest[0] == '/' {
      assert Less(rest, "0");
      assert rest == "/" || Less([], rest[1..]);
      assert "/"[1..] == [];
      if rest[1..] == [] { assert rest == "/"; }
    }
    if Less(rest, "0") && rest != [] {
      assert "0"[1..] == [] && !Less(rest[1..], []);
    }
  }

  /** `name >= startKey + "\x01"` is how the queries say "strictly after startKey". */
  lemma {:induction false} StartKeyIsExclusive(startKey: string, name: string)
    requires NulFree(name)
    ensures AtMost(startKey + [ONE], name) <==> Less(startKey, name)
    decreases |startKey|
  {
    if startKey == [] {
      assert startKey + [ONE] == [ONE];
      if name != [] {
        assert name[0] != NUL;
        if name[0] == ONE {
          assert [ONE][1..] == [];
          assert name == [ONE] + name[1..];
          assert name[1..] == [] || Less([], name[1..]);
        }
      }
    } else if name != [] {
      StartKeyIsExclusive(startKey[1..], name[1..]);
      assert (startKey + [ONE])[1..] == startKey[1..] + [ONE];
      assert name == [name[0]] + name[1..];
      if startKey[0] == name[0] && startKey[1..] + [ONE] == name[1..] {
        assert startKey + [ONE] == name;
      }
    }
  }

  function Digit(d: nat): char
    requires d < 10
  {
    '0' + d as char
  }

  /** strconv-style decimal rendering, as fmt's %d prints a non-negative revision. */
  function Decimal(n: nat): (s: string)
    ensures s != []
    ensures forall c :: c in s ==> '0' <= c <= '9'
  {
    if n < 10 then [Digit(n)] else Decimal(n / 10) + [Digit(n % 10)]
  }

  lemma {:induction false} DecimalInjective(m: nat, n: nat)
    requires Decimal(m) == Decimal(n)
    ensures m == n
    decreases m
  {
    var a, b := Decimal(m), Decimal(n);
    assert a[|a| - 1] == Digit(m % 10) && b[|b| - 1] == Digit(n % 10);
    if m >= 10 && n >= 10 {
      assert a[..|a| - 1] == Decimal(m / 10) && b[..|b| - 1] == Decimal(n / 10);
      DecimalInjective(m / 10, n / 10);
    }
  }

  /** The number that decimal digits stand for. */
  function Parsed(s: string): int {
    if s == "" then 0 else 10 * Parsed(s[..|s| - 1]) + (s[|s| - 1] as int - '0' as int)
  }

  /** A revision is rendered in decimal digits, without leading zeros. */
  lemma {:induction false} DecimalIsParsed(n: nat)
    ensures Parsed(Decimal(n)) == n
    ensures |Decimal(n)| > 1 ==> Decimal(n)[0] != '0'
  {
    var s := Decimal(n);
    if n >= 10 {
      DecimalIsParsed(n / 10);
      assert s[..|s| - 1] == Decimal(n / 10);
      if n / 10 < 10 { assert Decimal(n / 10) == [Digit(n / 10)]; }
    } else {
      assert s[..0] == "";
    }
  }

  function FillName(id: nat): (s: string)
    ensures IsFill(s)
  {
    FILL_PREFIX + Decimal(id)
  }

  lemma FillNameInjective(m: nat, n: nat)
    requires FillName(m) == FillName(n)
    ensures m == n
  {
    assert FillName(m)[|FILL_PREFIX|..] == Decimal(m);
    assert FillName(n)[|FILL_PREFIX|..] == Decimal(n);
    DecimalInjective(m, n);
  }
}
