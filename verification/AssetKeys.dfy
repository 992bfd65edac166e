/**
 Keys of assets. An overview of an image is named by the key of the image, ":overview:" and a
 level in decimal; the writer takes such keys apart again.
 */
module AssetKeys {
  import opened Wrappers

  const SEPARATOR := ":overview:"
  const IMAGE := "image:"
  const U32_LIMIT := 0x1_0000_0000

  // Numbers.

  predicate IsDigit(c: char) { '0' <= c <= '9' }

  predicate Digits(s: string) { forall i | 0 <= i < |s| :: IsDigit(s[i]) }

  function DigitValue(c: char): nat
    requires IsDigit(c)
  {
    (c - '0') as nat
  }

  function Digit(n: nat): (c: char)
    requires n < 10
    ensures IsDigit(c) && DigitValue(c) == n
  {
    '0' + n as char
  }

  function Number(s: string): nat
    requires Digits(s)
  {
    if s == "" then 0 else 10 * Number(s[..|s| - 1]) + DigitValue(s[|s| - 1])
  }

  /** Reading a level: an optional plus sign, then digits, the number below 2^32. */
  function ParseU32(s: string): Option<nat> {
    var d := if |s| > 0 && s[0] == '+' then s[1..] else s;
    if d == "" || !Digits(d) || Number(d) >= U32_LIMIT then None else Some(Number(d))
  }

  /** Writing a number without leading zeros. */
  function Format(n: nat): (s: string)
    ensures s != "" && Digits(s)
  {
    if n < 10 then [Digit(n)] else Format(n / 10) + [Digit(n % 10)]
  }

  predicate Canonical(s: string) {
    s != "" && Digits(s) && (s[0] == '0' ==> |s| == 1)
  }

  lemma {:induction false} FormatBack(n: nat)
    ensures Number(Format(n)) == n && Canonical(Format(n))
    ensures Format(n)[0] == '0' <==> n == 0
  {
    if n >= 10 {
      FormatBack(n / 10);
      var front := Format(n / 10);
      assert Format(n)[..|Format(n)| - 1] == front;
    }
  }

  lemma {:induction false} CanonicalBack(s: string)
    requires Canonical(s)
    ensures Format(Number(s)) == s
    ensures |s| > 1 ==> Number(s) >= 10
  {
    var front, last := s[..|s| - 1], s[|s| - 1];
    if |s| > 1 {
      CanonicalBack(front);
      if |front| == 1 {
        assert Number(front) == 10 * Number(front[..0]) + DigitValue(front[0]);
      }
      assert Number(s) / 10 == Number(front) && Number(s) % 10 == DigitValue(last);
      assert s == front + [last];
    } else {
      assert s == [last] && front == "";
    }
  }

  /** Parsing undoes formatting; among all the strings with one value only the formatted one is canonical. */
  lemma ParseOfFormat(n: nat)
    requires n < U32_LIMIT
    ensures ParseU32(Format(n)) == Some(n)
  {
    FormatBack(n);
  }

  lemma ParseDetermines(s: string)
    requires ParseU32(s).Some?
    ensures Canonical(s) <==> s == Format(ParseU32(s).value)
  {
    FormatBack(ParseU32(s).value);
    if Canonical(s) {
      CanonicalBack(s);
    }
  }

  // Taking a key apart.

  predicate SeparatorAt(s: string, i: nat) {
    i + |SEPARATOR| <= |s| && s[i..i + |SEPARATOR|] == SEPARATOR
  }

  /** The last place at or before n where the separator stands. */
  function LastSeparator(s: string, n: nat): (r: Option<nat>)
    ensures r.Some? ==> r.value <= n && SeparatorAt(s, r.value)
    ensures forall i: nat | (if r.Some? then r.value < i else true) && i <= n :: !SeparatorAt(s, i)
  {
    if SeparatorAt(s, n) then Some(n) else if n == 0 then None else LastSeparator(s, n - 1)
  }

  /** What stands before and after the last separator. */
  function SplitAtLast(s: string): Option<(string, string)> {
    match LastSeparator(s, |s|)
    case None => None
    case Some(i) => Some((s[..i], s[i + |SEPARATOR|..]))
  }

  predicate StartsWith(s: string, prefix: string) { prefix <= s }

  /** The image and the level an overview key names. */
  function ParseOverviewKey(key: string): Option<(string, nat)> {
    match SplitAtLast(key)
    case None => None
    case Some((parent, suffix)) =>
      if !StartsWith(parent, IMAGE) then None
      else
        match ParseU32(suffix)
        case None => None
        case Some(level) => Some((parent, level))
  }

  function OverviewKey(parent: string, level: nat): string {
    parent + SEPARATOR + Format(level)
  }

  lemma SplitJoins(s: string, parent: string, suffix: string)
    requires SplitAtLast(s) == Some((parent, suffix))
    ensures s == parent + SEPARATOR + suffix
  {
    var i := LastSeparator(s, |s|).value;
    assert s == s[..i] + s[i..i + |SEPARATOR|] + s[i + |SEPARATOR|..];
  }

  /** With only digits after it, a separator is the last one, even where the parent holds others. */
  lemma DigitsHaveNoSeparator(parent: string, suffix: string)
    requires Digits(suffix)
    ensures SplitAtLast(parent + SEPARATOR + suffix) == Some((parent, suffix))
  {
    var s := parent + SEPARATOR + suffix;
    forall i: nat | |parent| < i <= |s| ensures !SeparatorAt(s, i) {
      if SeparatorAt(s, i) {
        SeparatorEnds(s, i);
      }
    }
    LastSplits(parent, suffix);
  }

  lemma LastSplits(parent: string, suffix: string)
    requires var s := parent + SEPARATOR + suffix; forall i: nat | |parent| < i <= |s| :: !SeparatorAt(s, i)
    ensures SplitAtLast(parent + SEPARATOR + suffix) == Some((parent, suffix))
  {
    var s := parent + SEPARATOR + suffix;
    assert s[|parent|..|parent| + |SEPARATOR|] == SEPARATOR;
    assert SeparatorAt(s, |parent|);
    assert LastSeparator(s, |s|) == Some(|parent|);
    assert s[..|parent|] == parent && s[|parent| + |SEPARATOR|..] == suffix;
  }

  lemma SeparatorEnds(s: string, i: nat)
    requires SeparatorAt(s, i)
    ensures s[i + 9] == ':'
  {
    assert s[i + 9] == s[i..i + |SEPARATOR|][9];
  }

  /** A level is spelled with an optional plus sign and at least one digit, and stays below 2^32. */
  lemma LevelSpelled(s: string, n: nat)
    ensures ParseU32(s) == Some(n)
            <==> n < 0x1_0000_0000 && exists d :: (s == d || s == "+" + d) && d != "" && Digits(d) && Number(d) == n
  {
    if d :| s == "+" + d && d != "" && Digits(d) && Number(d) == n {
      assert s[1..] == d;
    }
    if ParseU32(s) == Some(n) && s[0] == '+' {
      assert s == "+" + s[1..];
    }
  }

  /** The key is an image's key, the separator and a spelling of the level. */
  predicate NamesOverview(key: string, parent: string, suffix: string, level: nat) {
    key == parent + ":overview:" + suffix && "image:" <= parent && ParseU32(suffix) == Some(level)
  }

  lemma NoColon(suffix: string, i: nat)
    requires ParseU32(suffix).Some? && i < |suffix|
    ensures suffix[i] != ':'
  {
    if suffix[0] == '+' && i > 0 {
      assert suffix[1..][i - 1] == suffix[i];
    }
  }

  lemma LevelHasNoSeparator(parent: string, suffix: string)
    requires ParseU32(suffix).Some?
    ensures SplitAtLast(parent + SEPARATOR + suffix) == Some((parent, suffix))
  {
    var s := parent + SEPARATOR + suffix;
    forall i: nat | |parent| < i <= |s| ensures !SeparatorAt(s, i) {
      if SeparatorAt(s, i) {
        SeparatorEnds(s, i);
        NoColon(suffix, i + 9 - |parent| - |SEPARATOR|);
      }
    }
    LastSplits(parent, suffix);
  }

  /** Exactly these keys name overviews; whatever stands before "image:", or in place of it, makes another key of it. */
  lemma OverviewKeysExactly(key: string, parent: string, level: nat)
    ensures ParseOverviewKey(key) == Some((parent, level)) <==> exists suffix :: NamesOverview(key, parent, suffix, level)
  {
    if ParseOverviewKey(key) == Some((parent, level)) {
      var (front, suffix) := SplitAtLast(key).value;
      SplitJoins(key, front, suffix);
      assert NamesOverview(key, parent, suffix, level);
    }
    if suffix :| NamesOverview(key, parent, suffix, level) {
      LevelHasNoSeparator(parent, suffix);
    }
  }

  lemma NamesStart(key: string)
    ensures ParseOverviewKey(key).Some? ==> |key| >= 16 && key[0] == 'i'
  {
    if ParseOverviewKey(key).Some? {
      var (parent, level) := ParseOverviewKey(key).value;
      OverviewKeysExactly(key, parent, level);
      var suffix :| NamesOverview(key, parent, suffix, level);
      assert parent[0] == "image:"[0];
    }
  }

  /** An overview of an image, an image, and an overview of something else. */
  lemma KeysOfEachKind()
    ensures ParseOverviewKey("image:0:overview:1") == Some(("image:0", 1))
    ensures ParseOverviewKey("image:0") == None
    ensures ParseOverviewKey("text:0:overview:1") == None
  {
    assert "1"[..0] == "" && Number("1") == 1;
    assert "image:0" + ":overview:" + "1" == "image:0:overview:1";
    assert NamesOverview("image:0:overview:1", "image:0", "1", 1);
    OverviewKeysExactly("image:0:overview:1", "image:0", 1);
    NamesStart("image:0");
    NamesStart("text:0:overview:1");
  }

  /** Overview keys are taken apart into the image and the level they were made of. */
  lemma OverviewKeyBack(parent: string, level: nat)
    requires StartsWith(parent, IMAGE) && level < U32_LIMIT
    ensures ParseOverviewKey(OverviewKey(parent, level)) == Some((parent, level))
  {
    DigitsHaveNoSeparator(parent, Format(level));
    ParseOfFormat(level);
  }

  /** The spelling of the level in an overview key. */
  function LevelText(key: string): string {
    if SplitAtLast(key).Some? then SplitAtLast(key).value.1 else ""
  }

  /** Two keys name the same overview exactly when they differ at most in how the level is spelled. */
  lemma SameOverview(a: string, b: string)
    requires ParseOverviewKey(a).Some? && ParseOverviewKey(a) == ParseOverviewKey(b)
    ensures a == b <==> LevelText(a) == LevelText(b)
    ensures Canonical(LevelText(a)) && Canonical(LevelText(b)) ==> a == b
  {
    var (parent, suffix) := SplitAtLast(a).value;
    var (parent', suffix') := SplitAtLast(b).value;
    SplitJoins(a, parent, suffix);
    SplitJoins(b, parent', suffix');
    ParseDetermines(suffix);
    ParseDetermines(suffix');
  }

  /** Leading zeros and a plus sign are accepted, so different keys can name one overview. */
  lemma SpellingsCollide(parent: string)
    requires StartsWith(parent, IMAGE)
    ensures ParseOverviewKey(parent + SEPARATOR + "01") == Some((parent, 1))
    ensures ParseOverviewKey(parent + SEPARATOR + "+1") == Some((parent, 1))
    ensures parent + SEPARATOR + "01" != parent + SEPARATOR + "1"
  {
    DigitsHaveNoSeparator(parent, "01");
    assert Number("01") == 1 by {
      assert "01"[..1] == "0" && "0"[..0] == "";
    }
    PlusHasNoSeparator(parent);
    assert "+1"[1..] == "1" && "1"[..0] == "";
    assert (parent + SEPARATOR + "01")[|parent| + 10] == '0' && (parent + SEPARATOR + "1")[|parent| + 10] == '1';
  }

  lemma PlusHasNoSeparator(parent: string)
    ensures SplitAtLast(parent + SEPARATOR + "+1") == Some((parent, "+1"))
  {
    var s := parent + SEPARATOR + "+1";
    forall i: nat | |parent| < i <= |s| ensures !SeparatorAt(s, i) {
      if SeparatorAt(s, i) {
        SeparatorEnds(s, i);
      }
    }
    LastSplits(parent, "+1");
  }
}
