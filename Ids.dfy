/**
 * User identifiers as the registry stores them, and the membership test the
 * gate runs against each of its lists (commands/start.js, lines 31-34).
 *
 * An entry may have been stored as a number or as a string; every comparison
 * goes through JavaScript's `String(...)`, so both forms of the same id match.
 */
module Ids {

  /** One entry of `approved`, `banned` or `pending`. */
  datatype StoredId = Num(n: int) | Str(s: string)

  /** The decimal digit character for `d`. */
  function DigitChar(d: nat): (c: char)
    requires d < 10
    ensures '0' <= c <= '9'
  {
    (48 + d) as char
  }

  /** The number a string of decimal digits denotes, most significant digit first. */
  function NumeralValue(s: string): int
    decreases |s|
  {
    if s == [] then 0 else 10 * NumeralValue(s[..|s| - 1]) + (s[|s| - 1] as int - '0' as int)
  }

  /** The decimal numeral of `n`, without leading zeros. */
  function Digits(n: nat): (r: string)
    ensures 1 <= |r|
    ensures forall i :: 0 <= i < |r| ==> '0' <= r[i] <= '9'
    ensures |r| == 1 <==> n < 10
    decreases n
  {
    if n < 10 then [DigitChar(n)] else Digits(n / 10) + [DigitChar(n % 10)]
  }

  /** The numeral of `n` denotes `n` and has no leading zero. */
  lemma {:induction false} DigitsValue(n: nat)
    ensures NumeralValue(Digits(n)) == n
    ensures |Digits(n)| > 1 ==> Digits(n)[0] != '0'
    decreases n
  {
    if 10 <= n {
      var r := Digits(n);
      assert r == Digits(n / 10) + [DigitChar(n % 10)];
      assert r[..|r| - 1] == Digits(n / 10);
      DigitsValue(n / 10);
    }
  }

  /** `String(n)` for an integral JavaScript number `n`. */
  function Decimal(n: int): (r: string)
    ensures 1 <= |r|
    ensures r[0] == '-' <==> n < 0
  {
    if n < 0 then "-" + Digits(-n) else Digits(n)
  }

  /**
   * `String(n)` is an optional minus sign followed by the numeral of `|n|`:
   * digits only, no leading zero, denoting `|n|`.
   */
  lemma DecimalValue(n: int)
    ensures 0 <= n ==> NumeralValue(Decimal(n)) == n && (|Decimal(n)| > 1 ==> Decimal(n)[0] != '0')
    ensures n < 0 ==> NumeralValue(Decimal(n)[1..]) == -n && (|Decimal(n)| > 2 ==> Decimal(n)[1] != '0')
    ensures forall i :: (if n < 0 then 1 else 0) <= i < |Decimal(n)| ==> '0' <= Decimal(n)[i] <= '9'
  {
    var d := Decimal(n);
    if n < 0 {
      var m := Digits(-n);
      assert d == "-" + m;
      assert d[1..] == m;
      DigitsValue(-n);
      forall i | 1 <= i < |d| ensures '0' <= d[i] <= '9' {
        assert d[i] == m[i - 1];
      }
    } else {
      assert d == Digits(n);
      DigitsValue(n);
    }
  }

  /** A few values, as JavaScript prints them. */
  lemma DecimalExamples()
    ensures Decimal(0) == "0" && Decimal(7) == "7" && Decimal(123) == "123" && Decimal(-7) == "-7"
  {
    assert Digits(12) == Digits(1) + ['2'];
    assert Digits(123) == Digits(12) + ['3'];
  }

  /** `String(id)` for a stored entry. */
  function Canon(id: StoredId): string
  {
    match id
    case Num(n) => Decimal(n)
    case Str(s) => s
  }

  /** An entry names `uid` exactly when it holds `uid` as a number or as its decimal string. */
  lemma CanonNames(id: StoredId, uid: int)
    ensures Canon(id) == Decimal(uid) <==> id == Num(uid) || id == Str(Decimal(uid))
  {
    if id.Num? {
      DecimalInjective(id.n, uid);
    }
  }

  /** `ids.some(id => String(id) === String(uid))`. */
  predicate Listed(ids: seq<StoredId>, uid: int)
  {
    exists i :: 0 <= i < |ids| && Canon(ids[i]) == Decimal(uid)
  }

  /** Distinct naturals have distinct numerals. */
  lemma {:induction false} DigitsInjective(a: nat, b: nat)
    ensures Digits(a) == Digits(b) <==> a == b
    decreases a
  {
    if Digits(a) == Digits(b) && 10 <= a && 10 <= b {
      var da, db := Digits(a), Digits(b);
      assert da[..|da| - 1] == Digits(a / 10);
      assert db[..|db| - 1] == Digits(b / 10);
      assert DigitChar(a % 10) == da[|da| - 1] == db[|db| - 1] == DigitChar(b % 10);
      DigitsInjective(a / 10, b / 10);
    }
  }

  /**
   * `String` is one-to-one on integers: comparing two numbers by their string
   * forms is the same as comparing them numerically.
   */
  lemma DecimalInjective(a: int, b: int)
    ensures Decimal(a) == Decimal(b) <==> a == b
  {
    if Decimal(a) == Decimal(b) {
      if a < 0 && b < 0 {
        assert Digits(-a) == Decimal(a)[1..] == Decimal(b)[1..] == Digits(-b);
        DigitsInjective(-a, -b);
      } else if 0 <= a && 0 <= b {
        DigitsInjective(a, b);
      }
    }
  }

  /**
   * The membership test recognises a user whichever way the entry was stored:
   * it holds exactly when the list contains the user's id as a number or as its
   * decimal string.
   */
  lemma ListedEitherForm(ids: seq<StoredId>, uid: int)
    ensures Listed(ids, uid) <==> (Num(uid) in ids || Str(Decimal(uid)) in ids)
  {
    if Listed(ids, uid) {
      var i :| 0 <= i < |ids| && Canon(ids[i]) == Decimal(uid);
      CanonNames(ids[i], uid);
    }
    if Num(uid) in ids {
      var i :| 0 <= i < |ids| && ids[i] == Num(uid);
      assert Canon(ids[i]) == Decimal(uid);
    }
    if Str(Decimal(uid)) in ids {
      var i :| 0 <= i < |ids| && ids[i] == Str(Decimal(uid));
      assert Canon(ids[i]) == Decimal(uid);
    }
  }

  /** Appending an entry adds exactly the users that entry names. */
  lemma ListedAppend(ids: seq<StoredId>, x: StoredId, uid: int)
    ensures Listed(ids + [x], uid) <==> Listed(ids, uid) || Canon(x) == Decimal(uid)
  {
    var ids' := ids + [x];
    if Listed(ids', uid) {
      var i :| 0 <= i < |ids'| && Canon(ids'[i]) == Decimal(uid);
      if i < |ids| { assert ids'[i] == ids[i]; }
    }
    if Listed(ids, uid) {
      var i :| 0 <= i < |ids| && Canon(ids[i]) == Decimal(uid);
      assert ids'[i] == ids[i];
    }
    if Canon(x) == Decimal(uid) {
      assert ids'[|ids|] == x;
    }
  }
}
