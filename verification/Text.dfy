/**
 The few Python string operations the modelled code uses: `strip`, `partition`,
 `rpartition`, `split`, `join`, `isdigit`, `int(...)` and decimal formatting. Digits are
 the ASCII digits.
 */
module Text {
  import opened Wrappers

  // str.isspace
  predicate IsSpace(c: char) {
    || '\t' <= c <= '\r' || '\U{1c}' <= c <= ' ' || c == '\U{85}' || c == '\U{a0}'
    || c == '\U{1680}' || '\U{2000}' <= c <= '\U{200a}' || c == '\U{2028}' || c == '\U{2029}'
    || c == '\U{202f}' || c == '\U{205f}' || c == '\U{3000}'
  }

  function StripLeft(s: string): string {
    if s != [] && IsSpace(s[0]) then StripLeft(s[1..]) else s
  }

  function StripRight(s: string): string {
    if s != [] && IsSpace(s[|s| - 1]) then StripRight(s[..|s| - 1]) else s
  }

  function Strip(s: string): string {
    StripRight(StripLeft(s))
  }

  // No white space at either end.
  predicate Trimmed(s: string) {
    s == [] || (!IsSpace(s[0]) && !IsSpace(s[|s| - 1]))
  }

  lemma StripTrimmed(s: string)
    requires Trimmed(s)
    ensures Strip(s) == s
  {
  }

  lemma SpacesAre()
    ensures forall c | c in " \t\n\r" :: IsSpace(c)
    ensures forall c | '!' <= c <= '~' :: !IsSpace(c)
  {
  }

  // Strip removes the white space at both ends and nothing else.
  lemma StripOfPadded(left: string, text: string, right: string)
    requires Trimmed(text) && forall c | c in left + right :: IsSpace(c)
    ensures Strip(left + text + right) == text
  {
    assert forall c | c in left :: c in left + right;
    assert forall c | c in right :: c in left + right;
    StripLeftOf(left, text + right);
    assert left + text + right == left + (text + right);
    if text == [] {
      assert text + right == right + [];
      StripLeftOf(right, []);
    } else {
      StripRightOf(text, right);
    }
  }

  lemma {:induction false} StripLeftOf(left: string, rest: string)
    requires forall c | c in left :: IsSpace(c)
    ensures rest == [] || !IsSpace(rest[0]) ==> StripLeft(left + rest) == rest
    ensures (forall c | c in rest :: IsSpace(c)) ==> StripLeft(left + rest) == []
  {
    if left == [] {
      assert left + rest == rest;
      AllStripped(rest);
    } else {
      assert left[0] in left && (left + rest)[1..] == left[1..] + rest;
      assert forall c | c in left[1..] :: c in left;
      StripLeftOf(left[1..], rest);
    }
  }

  lemma {:induction false} AllStripped(s: string)
    ensures (forall c | c in s :: IsSpace(c)) ==> StripLeft(s) == []
  {
    if s != [] && forall c | c in s :: IsSpace(c) {
      assert s[0] in s && forall c | c in s[1..] :: c in s;
      AllStripped(s[1..]);
    }
  }

  lemma {:induction false} StripRightOf(text: string, right: string)
    requires text != [] && !IsSpace(text[|text| - 1]) && forall c | c in right :: IsSpace(c)
    ensures StripRight(text + right) == text
  {
    if right == [] {
      assert text + right == text;
    } else {
      var init := right[..|right| - 1];
      assert right[|right| - 1] in right && (text + right)[..|text + right| - 1] == text + init;
      assert forall c | c in init :: c in right;
      StripRightOf(text, init);
    }
  }

  // The index of the first `c`, or |s|.
  function IndexOf(s: string, c: char): (k: nat)
    ensures k <= |s| && c !in s[..k]
    ensures k < |s| ==> s[k] == c
  {
    if s == [] || s[0] == c then 0 else
      var k := IndexOf(s[1..], c);
      assert s[..k + 1] == [s[0]] + s[1..][..k];
      k + 1
  }

  lemma {:induction false} IndexOfAt(s: string, c: char, k: nat)
    requires k < |s| && s[k] == c && c !in s[..k]
    ensures IndexOf(s, c) == k
  {
    if k > 0 {
      assert s[0] == s[..k][0];
      assert forall x | x in s[1..][..k - 1] :: x in s[..k];
      IndexOfAt(s[1..], c, k - 1);
    }
  }

  // str.partition at the first `c`, when there is one.
  function Partition(s: string, c: char): (r: Option<(string, string)>)
    ensures r.None? <==> c !in s
    ensures r.Some? ==> s == r.value.0 + [c] + r.value.1 && c !in r.value.0
  {
    var k := IndexOf(s, c);
    if k < |s| then
      assert s == s[..k] + [c] + s[k + 1..];
      Some((s[..k], s[k + 1..]))
    else
      assert s[..k] == s;
      None
  }

  lemma PartitionOfJoined(a: string, c: char, b: string)
    requires c !in a
    ensures Partition(a + [c] + b, c) == Some((a, b))
  {
    var s := a + [c] + b;
    assert s[..|a|] == a && s[|a| + 1..] == b;
    IndexOfAt(s, c, |a|);
  }

  // str.rpartition at the last `c`, when there is one.
  function RPartition(s: string, c: char): (r: Option<(string, string)>)
    ensures r.None? <==> c !in s
    ensures r.Some? ==> s == r.value.0 + [c] + r.value.1 && c !in r.value.1
  {
    if s == [] then None
    else if s[|s| - 1] == c then
      assert s == s[..|s| - 1] + [c] + [];
      Some((s[..|s| - 1], []))
    else
      var init, last := s[..|s| - 1], s[|s| - 1];
      assert s == init + [last];
      match RPartition(init, c)
      case None => None
      case Some((a, b)) =>
        assert s == a + [c] + (b + [last]);
        Some((a, b + [last]))
  }

  lemma {:induction false} RPartitionOfJoined(a: string, c: char, b: string)
    requires c !in b
    ensures RPartition(a + [c] + b, c) == Some((a, b))
  {
    var s := a + [c] + b;
    if b == [] {
      assert s[..|s| - 1] == a;
    } else {
      var init := b[..|b| - 1];
      assert s[|s| - 1] == b[|b| - 1];
      assert s[..|s| - 1] == a + [c] + init;
      RPartitionOfJoined(a, c, init);
      assert init + [b[|b| - 1]] == b;
    }
  }

  // str.split(c): always at least one part.
  function Split(s: string, c: char): (r: seq<string>)
    ensures r != []
    decreases |s|
  {
    match Partition(s, c)
    case None => [s]
    case Some((head, tail)) => [head] + Split(tail, c)
  }

  // c.join(parts)
  function Join(parts: seq<string>, c: char): string {
    if parts == [] then [] else if |parts| == 1 then parts[0] else parts[0] + [c] + Join(parts[1..], c)
  }

  lemma {:induction false} SplitOfJoined(parts: seq<string>, c: char)
    requires parts != [] && forall p | p in parts :: c !in p
    ensures Split(Join(parts, c), c) == parts
  {
    if |parts| == 1 {
      assert parts == [parts[0]];
    } else {
      PartitionOfJoined(parts[0], c, Join(parts[1..], c));
      SplitOfJoined(parts[1..], c);
      assert parts == [parts[0]] + parts[1..];
    }
  }

  lemma {:induction false} JoinOfSplit(s: string, c: char)
    ensures Join(Split(s, c), c) == s
    decreases |s|
  {
    match Partition(s, c)
    case None =>
    case Some((head, tail)) =>
      JoinOfSplit(tail, c);
      var rest := Split(tail, c);
      assert ([head] + rest)[1..] == rest;
  }

  // ---- decimal numbers ----

  predicate IsDigit(c: char) {
    '0' <= c <= '9'
  }

  predicate AllDigits(s: string) {
    forall c | c in s :: IsDigit(c)
  }

  // str.isdigit
  predicate DigitText(s: string) {
    s != [] && AllDigits(s)
  }

  function DigitChar(d: nat): (c: char)
    requires d < 10
    ensures IsDigit(c) && (c as int) - ('0' as int) == d
  {
    ('0' as int + d) as char
  }

  function NatText(n: nat): (s: string)
    ensures DigitText(s)
  {
    if n < 10 then [DigitChar(n)] else NatText(n / 10) + [DigitChar(n % 10)]
  }

  function TextNat(s: string): nat
    requires AllDigits(s)
  {
    if s == [] then 0 else
      assert forall c | c in s[..|s| - 1] :: c in s;
      assert s[|s| - 1] in s;
      TextNat(s[..|s| - 1]) * 10 + ((s[|s| - 1] as int) - ('0' as int))
  }

  lemma {:induction false} TextNatOfNatText(n: nat)
    ensures TextNat(NatText(n)) == n
  {
    var s := NatText(n);
    if n < 10 {
      assert s[..0] == [];
    } else {
      TextNatOfNatText(n / 10);
      assert s[..|s| - 1] == NatText(n / 10);
    }
  }

  lemma {:induction false} NatTextInjective(m: nat, n: nat)
    requires NatText(m) == NatText(n)
    ensures m == n
  {
    TextNatOfNatText(m);
    TextNatOfNatText(n);
  }

  function Zeros(n: nat): (s: string)
    ensures |s| == n && AllDigits(s)
  {
    seq(n, _ => '0')
  }

  lemma {:induction false} LeadingZeros(n: nat, s: string)
    requires AllDigits(s)
    ensures AllDigits(Zeros(n) + s) && TextNat(Zeros(n) + s) == TextNat(s)
  {
    var t := Zeros(n) + s;
    if s != [] {
      assert t[..|t| - 1] == Zeros(n) + s[..|s| - 1];
      assert forall c | c in s[..|s| - 1] :: c in s;
      LeadingZeros(n, s[..|s| - 1]);
    } else if n > 0 {
      assert t == Zeros(n);
      assert t[..n - 1] == Zeros(n - 1) + [];
      LeadingZeros(n - 1, []);
    }
  }

  // str.lower on ASCII letters
  function LowerChar(c: char): char {
    if 'A' <= c <= 'Z' then (c as int + 32) as char else c
  }

  function Lower(s: string): string {
    seq(|s|, i requires 0 <= i < |s| => LowerChar(s[i]))
  }

  // `part in s`
  predicate Contains(s: string, part: string) {
    part <= s || (s != [] && Contains(s[1..], part))
  }

  // Equal up to the case of an ASCII letter.
  predicate SameLetter(a: char, b: char) {
    || a == b
    || ('A' <= a <= 'Z' && b as int == a as int + 32)
    || ('A' <= b <= 'Z' && a as int == b as int + 32)
  }

  predicate SameLetters(a: string, b: string) {
    |a| == |b| && forall i | 0 <= i < |a| :: SameLetter(a[i], b[i])
  }

  // Lowering tells apart exactly what differs in more than case.
  lemma LowerExactly(a: string, b: string)
    ensures Lower(a) == Lower(b) <==> SameLetters(a, b)
  {
    if Lower(a) == Lower(b) {
      assert |a| == |Lower(a)| == |Lower(b)| == |b|;
      forall i | 0 <= i < |a| ensures SameLetter(a[i], b[i]) {
        assert Lower(a)[i] == Lower(b)[i];
      }
    }
    if SameLetters(a, b) {
      assert forall i | 0 <= i < |a| :: LowerChar(a[i]) == LowerChar(b[i]);
    }
  }

  lemma {:induction false} ContainsExactly(s: string, part: string)
    ensures Contains(s, part) <==> exists i :: 0 <= i <= |s| && part <= s[i..]
  {
    if part <= s {
      assert s[0..] == s;
    } else if s != [] {
      ContainsExactly(s[1..], part);
      if Contains(s[1..], part) {
        var i :| 0 <= i <= |s[1..]| && part <= s[1..][i..];
        assert s[1..][i..] == s[i + 1..];
      }
      if i :| 0 <= i <= |s| && part <= s[i..] {
        assert i != 0 by { assert s[0..] == s; }
        assert s[1..][i - 1..] == s[i..];
      }
    }
  }
}
