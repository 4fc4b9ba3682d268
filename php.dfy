/**
 * The PHP runtime as the core uses it: decoded JSON values and the handful of
 * string and array built-ins the clients call (strtolower, strtoupper, strpos, explode,
 * implode, str_replace, array_unique, the (int) and (string) casts, and
 * `$array[$key] = $value` inside a foreach).
 */
module Php {

  datatype Option<T> = None | Some(value: T) {
    function GetOr(default: T): T {
      match this
      case Some(v) => v
      case None => default
    }
  }

  /** A value produced by json_decode; objects keep their members in document order. */
  datatype Doc =
    | Null
    | Bool(b: bool)
    | Num(n: int)
    | Str(s: string)
    | List(items: seq<Doc>)
    | Object(members: seq<Member>)

  datatype Member = Member(key: string, value: Doc)

  /** `$d->key` / `$d['key']`: the member's value, or null when `d` is not an object or lacks it. */
  function Get(d: Doc, key: string): Doc
  {
    if d.Object? then Lookup(d.members, key) else Null
  }

  function Lookup(ms: seq<Member>, key: string): Doc
  {
    if ms == [] then Null
    else if ms[0].key == key then ms[0].value
    else Lookup(ms[1..], key)
  }

  /** `isset($d->key)`: the member exists and is not null. */
  predicate Isset(d: Doc, key: string)
  {
    Get(d, key) != Null
  }

  /** PHP truthiness of a decoded value. */
  predicate Truthy(d: Doc)
  {
    match d
    case Null => false
    case Bool(b) => b
    case Num(n) => n != 0
    case Str(s) => s != "" && s != "0"
    case List(items) => items != []
    case Object(ms) => true
  }

  /** The elements a `foreach` visits: list items, or object member values. */
  function Elements(d: Doc): seq<Doc>
  {
    match d
    case List(items) => items
    case Object(ms) => seq(|ms|, i requires 0 <= i < |ms| => ms[i].value)
    case _ => []
  }

  /** The `(string)` cast of a scalar; arrays become "Array". */
  function AsString(d: Doc): string
  {
    match d
    case Null => ""
    case Bool(b) => if b then "1" else ""
    case Num(n) => IntToString(n)
    case Str(s) => s
    case List(_) => "Array"
    case Object(_) => "Array"
  }

  /**
   * The key a value is filed under in a PHP array: a boolean becomes 0 or 1,
   * null the empty string, anything else its string cast (keys are kept as
   * strings here, so `false` and "0" share the key "0").
   */
  function ArrayKey(d: Doc): string
  {
    match d
    case Bool(b) => if b then "1" else "0"
    case _ => AsString(d)
  }

  /** Keys that collide: `false` with "0", `true` with 1, null with "". */
  lemma ArrayKeyCollisions()
    ensures ArrayKey(Bool(false)) == ArrayKey(Str("0")) && ArrayKey(Bool(false)) != ArrayKey(Null)
    ensures ArrayKey(Bool(true)) == ArrayKey(Num(1)) == ArrayKey(Str("1"))
    ensures ArrayKey(Null) == ArrayKey(Str(""))
  {
    assert IntToString(1) == "1";
  }

  // ---------------------------------------------------------------------------
  // strtolower, strtoupper

  function LowerChar(c: char): char
  {
    if 'A' <= c <= 'Z' then (c as int + 32) as char else c
  }

  /** strtolower on ASCII letters; other characters are kept. */
  function Lower(s: string): (r: string)
    ensures |r| == |s|
  {
    if s == [] then [] else [LowerChar(s[0])] + Lower(s[1..])
  }

  /** strtolower maps each character on its own. */
  lemma {:induction false} LowerPointwise(s: string)
    ensures forall i :: 0 <= i < |s| ==> Lower(s)[i] == LowerChar(s[i])
    decreases |s|
  {
    if s != [] {
      LowerPointwise(s[1..]);
    }
  }

  function UpperChar(c: char): char
  {
    if 'a' <= c <= 'z' then (c as int - 32) as char else c
  }

  /** strtoupper on ASCII letters; other characters are kept. */
  function Upper(s: string): (r: string)
    ensures |r| == |s|
  {
    if s == [] then [] else [UpperChar(s[0])] + Upper(s[1..])
  }

  // ---------------------------------------------------------------------------
  // strpos($s, $pat) !== false

  predicate StartsWith(s: string, pat: string)
  {
    |pat| <= |s| && s[..|pat|] == pat
  }

  predicate Contains(s: string, pat: string)
    decreases |s|
  {
    StartsWith(s, pat) || (|s| > 0 && Contains(s[1..], pat))
  }

  /** `pat` occurs in `s` starting at position `i`. */
  predicate OccursAt(s: string, pat: string, i: nat)
  {
    i + |pat| <= |s| && s[i..i + |pat|] == pat
  }

  /** Containment as the existence of a position where `pat` occurs. */
  lemma {:induction false} ContainsAt(s: string, pat: string)
    ensures Contains(s, pat) <==> exists i: nat :: OccursAt(s, pat, i)
    decreases |s|
  {
    if Contains(s, pat) {
      if StartsWith(s, pat) {
        assert OccursAt(s, pat, 0);
      } else {
        ContainsAt(s[1..], pat);
        var i: nat :| OccursAt(s[1..], pat, i);
        assert s[1..][i..i + |pat|] == s[i + 1..i + 1 + |pat|];
        assert OccursAt(s, pat, i + 1);
      }
    }
    if exists i: nat :: OccursAt(s, pat, i) {
      var i: nat :| OccursAt(s, pat, i);
      if i > 0 {
        assert s[1..][i - 1..i - 1 + |pat|] == s[i..i + |pat|];
        assert OccursAt(s[1..], pat, i - 1);
        ContainsAt(s[1..], pat);
      } else {
        assert StartsWith(s, pat);
      }
    }
  }

  /** A string contains whatever occurs at a known position of it. */
  lemma ContainsWitness(s: string, pat: string, i: nat)
    requires OccursAt(s, pat, i)
    ensures Contains(s, pat)
  {
    ContainsAt(s, pat);
  }

  /** A one-character pattern occurs exactly when some character equals it. */
  lemma ContainsChar(s: string, c: char)
    ensures Contains(s, [c]) <==> exists i :: 0 <= i < |s| && s[i] == c
  {
    ContainsAt(s, [c]);
    if exists i :: 0 <= i < |s| && s[i] == c {
      var i :| 0 <= i < |s| && s[i] == c;
      assert s[i..i + 1] == [c];
      assert OccursAt(s, [c], i);
    }
    if exists i: nat :: OccursAt(s, [c], i) {
      var i: nat :| OccursAt(s, [c], i);
      assert s[i] == s[i..i + 1][0];
    }
  }

  /** A string containing `c` keeps containing it inside any larger string. */
  lemma ContainsCharInConcat(a: string, b: string, c: char)
    ensures Contains(a + b, [c]) <==> Contains(a, [c]) || Contains(b, [c])
  {
    ContainsChar(a, c);
    ContainsChar(b, c);
    ContainsChar(a + b, c);
    if Contains(a + b, [c]) {
      var i :| 0 <= i < |a + b| && (a + b)[i] == c;
      if i >= |a| { assert b[i - |a|] == c; }
    }
    if Contains(a, [c]) {
      var i :| 0 <= i < |a| && a[i] == c;
      assert (a + b)[i] == c;
    }
    if Contains(b, [c]) {
      var i :| 0 <= i < |b| && b[i] == c;
      assert (a + b)[|a| + i] == c;
    }
  }

  // ---------------------------------------------------------------------------
  // explode / implode

  /** The prefix of `s` before the first `d`, or all of `s`. */
  function Before(s: string, d: char): (r: string)
    ensures |r| <= |s| && r == s[..|r|]
    ensures d !in r
    ensures |r| < |s| ==> s[|r|] == d
  {
    if s == [] || s[0] == d then [] else [s[0]] + Before(s[1..], d)
  }

  /** explode($d, $s): the pieces between the delimiters; never empty. */
  function Explode(d: char, s: string): (parts: seq<string>)
    ensures |parts| >= 1
    ensures forall i :: 0 <= i < |parts| ==> d !in parts[i]
    decreases |s|
  {
    var head := Before(s, d);
    if |head| == |s| then [s] else [head] + Explode(d, s[|head| + 1..])
  }

  /** implode($d, $parts). */
  function Implode(d: char, parts: seq<string>): string
  {
    if parts == [] then ""
    else if |parts| == 1 then parts[0]
    else parts[0] + [d] + Implode(d, parts[1..])
  }

  lemma BeforeOfJoin(a: string, d: char, b: string)
    requires d !in a
    ensures Before(a + [d] + b, d) == a
    decreases |a|
  {
    if a != [] {
      assert (a + [d] + b)[1..] == a[1..] + [d] + b;
      BeforeOfJoin(a[1..], d, b);
    }
  }

  lemma BeforeOfPlain(a: string, d: char)
    requires d !in a
    ensures Before(a, d) == a
    decreases |a|
  {
    if a != [] { BeforeOfPlain(a[1..], d); }
  }

  /** explode undoes implode when no piece holds the delimiter. */
  lemma {:induction false} ExplodeImplode(d: char, parts: seq<string>)
    requires |parts| >= 1
    requires forall i :: 0 <= i < |parts| ==> d !in parts[i]
    ensures Explode(d, Implode(d, parts)) == parts
    decreases |parts|
  {
    if |parts| == 1 {
      BeforeOfPlain(parts[0], d);
    } else {
      var rest := Implode(d, parts[1..]);
      var s := parts[0] + [d] + rest;
      BeforeOfJoin(parts[0], d, rest);
      assert s[|parts[0]| + 1..] == rest;
      ExplodeImplode(d, parts[1..]);
    }
  }

  /** implode undoes explode. */
  lemma {:induction false} ImplodeExplode(d: char, s: string)
    ensures Implode(d, Explode(d, s)) == s
    decreases |s|
  {
    var head := Before(s, d);
    if |head| < |s| {
      var tail := s[|head| + 1..];
      var rest := Explode(d, tail);
      ImplodeExplode(d, tail);
      assert Explode(d, s) == [head] + rest;
      assert ([head] + rest)[1..] == rest;
      assert Implode(d, [head] + rest) == head + [d] + Implode(d, rest);
      assert s == head + [d] + tail;
    }
  }

  // ---------------------------------------------------------------------------
  // str_replace($pat, $rep, $s) for one non-empty search string

  /** Every occurrence of `pat`, scanning left to right without overlap, becomes `rep`. */
  function ReplaceAll(s: string, pat: string, rep: string): string
    requires |pat| > 0
    decreases |s|
  {
    if |s| < |pat| then s
    else if s[..|pat|] == pat then rep + ReplaceAll(s[|pat|..], pat, rep)
    else [s[0]] + ReplaceAll(s[1..], pat, rep)
  }

  /** Text without the search string comes back unchanged. */
  lemma {:induction false} ReplaceAbsent(s: string, pat: string, rep: string)
    requires |pat| > 0 && !Contains(s, pat)
    ensures ReplaceAll(s, pat, rep) == s
    decreases |s|
  {
    if |s| >= |pat| {
      assert !StartsWith(s, pat);
      ReplaceAbsent(s[1..], pat, rep);
    }
  }

  /** Replacing a string by itself changes nothing. */
  lemma {:induction false} ReplaceSelf(s: string, pat: string)
    requires |pat| > 0
    ensures ReplaceAll(s, pat, pat) == s
    decreases |s|
  {
    if |s| >= |pat| {
      if s[..|pat|] == pat {
        ReplaceSelf(s[|pat|..], pat);
        assert s == s[..|pat|] + s[|pat|..];
      } else {
        ReplaceSelf(s[1..], pat);
      }
    }
  }

  /**
   * The text up to the first occurrence is kept, that occurrence becomes `rep`,
   * and the scan resumes right after it.
   */
  lemma {:induction false} ReplaceAtFirst(s: string, pat: string, rep: string, i: nat)
    requires |pat| > 0 && OccursAt(s, pat, i)
    requires forall j: nat :: j < i ==> !OccursAt(s, pat, j)
    ensures ReplaceAll(s, pat, rep) == s[..i] + rep + ReplaceAll(s[i + |pat|..], pat, rep)
    decreases i
  {
    if i == 0 {
      ReplaceAtStart(s, pat, rep);
    } else {
      var t := s[1..];
      assert !OccursAt(s, pat, 0);
      ReplaceSkipFirst(s, pat, rep);
      NoEarlierOccurrence(s, pat, i);
      ReplaceAtFirst(t, pat, rep, i - 1);
      assert t[i - 1 + |pat|..] == s[i + |pat|..];
      var rest := ReplaceAll(s[i + |pat|..], pat, rep);
      assert ReplaceAll(t, pat, rep) == t[..i - 1] + rep + rest;
      ConsSplit(s, i, rep, rest);
    }
  }

  /** Text starting with the search string starts with the replacement. */
  lemma ReplaceAtStart(s: string, pat: string, rep: string)
    requires |pat| > 0 && OccursAt(s, pat, 0)
    ensures ReplaceAll(s, pat, rep) == s[..0] + rep + ReplaceAll(s[0 + |pat|..], pat, rep)
  {
    assert s[..|pat|] == pat;
    assert s[..0] + rep == rep;
  }

  /** Text holding the search string holds the replacement once it is replaced. */
  lemma {:induction false} ReplaceIntroduces(s: string, pat: string, rep: string)
    requires |pat| > 0 && Contains(s, pat)
    ensures Contains(ReplaceAll(s, pat, rep), rep)
    decreases |s|
  {
    if StartsWith(s, pat) {
      var rest := ReplaceAll(s[|pat|..], pat, rep);
      assert ReplaceAll(s, pat, rep) == rep + rest;
      assert (rep + rest)[..|rep|] == rep;
    } else {
      ContainsAt(s, pat);
      assert !OccursAt(s, pat, 0) && |pat| <= |s| by {
        var i: nat :| OccursAt(s, pat, i);
        assert s[0..|pat|] == s[..|pat|];
      }
      ReplaceSkipFirst(s, pat, rep);
      ReplaceIntroduces(s[1..], pat, rep);
      ConsContains(s[0], ReplaceAll(s[1..], pat, rep), rep);
    }
  }

  /** Containment survives putting a character in front. */
  lemma ConsContains(c: char, t: string, pat: string)
    requires Contains(t, pat)
    ensures Contains([c] + t, pat)
  {
    assert ([c] + t)[1..] == t;
  }

  /** Putting the first character back in front of a prefix of the tail. */
  lemma ConsSplit(s: string, k: nat, mid: string, rest: string)
    requires 0 < k <= |s|
    ensures [s[0]] + (s[1..][..k - 1] + mid + rest) == s[..k] + mid + rest
  {
    assert s[..k] == [s[0]] + s[1..][..k - 1];
  }

  /** Text that does not start with the search string keeps its first character. */
  lemma ReplaceSkipFirst(s: string, pat: string, rep: string)
    requires |pat| > 0 && |pat| <= |s| && !OccursAt(s, pat, 0)
    ensures ReplaceAll(s, pat, rep) == [s[0]] + ReplaceAll(s[1..], pat, rep)
  {
  }

  /** Dropping the first character shifts every occurrence one place left. */
  lemma NoEarlierOccurrence(s: string, pat: string, i: nat)
    requires 0 < i && OccursAt(s, pat, i)
    requires forall j: nat :: j < i ==> !OccursAt(s, pat, j)
    ensures OccursAt(s[1..], pat, i - 1)
    ensures forall j: nat :: j < i - 1 ==> !OccursAt(s[1..], pat, j)
  {
    forall j: nat | j < i - 1
      ensures !OccursAt(s[1..], pat, j)
    {
      assert !OccursAt(s, pat, j + 1);
      ShiftOccurrence(s, pat, j);
    }
    ShiftOccurrence(s, pat, i - 1);
  }

  lemma ShiftOccurrence(s: string, pat: string, j: nat)
    requires |s| > 0
    ensures OccursAt(s[1..], pat, j) <==> OccursAt(s, pat, j + 1)
  {
    if j + 1 + |pat| <= |s| {
      assert s[1..][j..j + |pat|] == s[j + 1..j + 1 + |pat|];
    }
  }

  // ---------------------------------------------------------------------------
  // integers and strings

  function DigitChar(d: nat): char
    requires d < 10
  {
    ('0' as int + d) as char
  }

  /** The decimal digits of a natural number, most significant first. */
  function NatToString(n: nat): (r: string)
    ensures |r| >= 1
    ensures forall i :: 0 <= i < |r| ==> '0' <= r[i] <= '9'
    decreases n
  {
    if n < 10 then [DigitChar(n)] else NatToString(n / 10) + [DigitChar(n % 10)]
  }

  /** The `(string)` cast of an integer. */
  function IntToString(n: int): string
  {
    if n < 0 then "-" + NatToString(-n) else NatToString(n)
  }

  predicate IsDigit(c: char)
  {
    '0' <= c <= '9'
  }

  /** The value of the longest run of leading decimal digits (0 when there is none). */
  function DigitsValue(s: string, acc: nat): (r: nat)
    decreases |s|
  {
    if s == [] || !IsDigit(s[0]) then acc
    else DigitsValue(s[1..], acc * 10 + (s[0] as int - '0' as int))
  }

  predicate IsSpace(c: char)
  {
    c == ' ' || c == '\t' || c == '\n' || c == '\r' || c == 11 as char || c == 12 as char
  }

  function TrimLeadingSpace(s: string): (r: string)
    ensures |r| <= |s| && r == s[|s| - |r|..]
    ensures r == [] || !IsSpace(r[0])
  {
    if s != [] && IsSpace(s[0]) then TrimLeadingSpace(s[1..]) else s
  }

  /**
   * The `(int)` cast of a string: leading white space, an optional sign, then
   * the leading decimal digits; anything else gives 0.
   */
  function StringToInt(s: string): int
  {
    var t := TrimLeadingSpace(s);
    if t != [] && t[0] == '-' then 0 - DigitsValue(t[1..], 0) as int
    else if t != [] && t[0] == '+' then DigitsValue(t[1..], 0)
    else DigitsValue(t, 0)
  }

  /** The `(int)` cast of a decoded value (null and false give 0). */
  function DocToInt(d: Doc): int
  {
    match d
    case Null => 0
    case Bool(b) => if b then 1 else 0
    case Num(n) => n
    case Str(s) => StringToInt(s)
    case List(items) => if items == [] then 0 else 1
    case Object(_) => 1
  }

  lemma {:induction false} DigitsValueAppend(s: string, rest: string, acc: nat)
    requires forall i :: 0 <= i < |s| ==> IsDigit(s[i])
    requires rest == [] || !IsDigit(rest[0])
    ensures DigitsValue(s + rest, acc) == DigitsValue(s, acc)
    decreases |s|
  {
    if s == [] {
    } else {
      assert (s + rest)[1..] == s[1..] + rest;
      DigitsValueAppend(s[1..], rest, acc * 10 + (s[0] as int - '0' as int));
    }
  }

  lemma {:induction false} DigitsValueSnoc(s: string, c: char, acc: nat)
    requires forall i :: 0 <= i < |s| ==> IsDigit(s[i])
    requires IsDigit(c)
    ensures DigitsValue(s + [c], acc) == DigitsValue(s, acc) * 10 + (c as int - '0' as int)
    decreases |s|
  {
    if s == [] {
      assert DigitsValue([c], acc) == DigitsValue([], acc * 10 + (c as int - '0' as int));
    } else {
      assert (s + [c])[1..] == s[1..] + [c];
      DigitsValueSnoc(s[1..], c, acc * 10 + (s[0] as int - '0' as int));
    }
  }

  /** Reading back the digits NatToString wrote gives the number. */
  lemma {:induction false} DigitsOfNat(n: nat)
    ensures DigitsValue(NatToString(n), 0) == n
    decreases n
  {
    if n < 10 {
      assert DigitsValue([DigitChar(n)], 0) == DigitsValue([], n);
    } else {
      DigitsOfNat(n / 10);
      DigitsValueSnoc(NatToString(n / 10), DigitChar(n % 10), 0);
    }
  }

  /** The (int) cast undoes the (string) cast of a natural number, whatever non-digit text follows. */
  lemma StringToIntOfNat(n: nat, rest: string)
    requires rest == [] || !IsDigit(rest[0])
    ensures StringToInt(NatToString(n) + rest) == n
  {
    var s := NatToString(n);
    LeadingDigit(s, rest);
    DigitsValueAppend(s, rest, 0);
    DigitsOfNat(n);
  }

  /** A text that starts with a digit casts to the value of its leading digits. */
  lemma LeadingDigit(s: string, rest: string)
    requires s != [] && IsDigit(s[0])
    ensures StringToInt(s + rest) == DigitsValue(s + rest, 0)
  {
    var t := s + rest;
    assert t[0] == s[0] && IsDigit(t[0]);
    assert TrimLeadingSpace(t) == t by {
      assert !IsSpace(t[0]);
    }
    assert t[0] != '-' && t[0] != '+';
  }

  // ---------------------------------------------------------------------------
  // `foreach ($pairs as ...) { $m[$k] = $v; }`

  /** The map a foreach builds by assigning each pair in turn: a later key overwrites an earlier one. */
  function Assoc<K, V>(pairs: seq<(K, V)>): map<K, V>
  {
    if pairs == [] then map[]
    else Assoc(pairs[..|pairs| - 1])[pairs[|pairs| - 1].0 := pairs[|pairs| - 1].1]
  }

  /** A key of the map is one of the pairs' keys, and its value is that of the LAST pair with that key. */
  lemma {:induction false} AssocLastWins<K, V>(pairs: seq<(K, V)>, k: K)
    ensures k in Assoc(pairs) <==> exists i :: 0 <= i < |pairs| && pairs[i].0 == k
    ensures forall i :: 0 <= i < |pairs| && pairs[i].0 == k && (forall j :: i < j < |pairs| ==> pairs[j].0 != k)
              ==> k in Assoc(pairs) && Assoc(pairs)[k] == pairs[i].1
    decreases |pairs|
  {
    if pairs != [] {
      var init := pairs[..|pairs| - 1];
      AssocLastWins(init, k);
      if exists i :: 0 <= i < |pairs| && pairs[i].0 == k {
        var i :| 0 <= i < |pairs| && pairs[i].0 == k;
        if i < |pairs| - 1 { assert init[i].0 == k; }
      }
      if exists i :: 0 <= i < |init| && init[i].0 == k {
        var i :| 0 <= i < |init| && init[i].0 == k;
        assert pairs[i].0 == k;
      }
      forall i | 0 <= i < |pairs| && pairs[i].0 == k && (forall j :: i < j < |pairs| ==> pairs[j].0 != k)
        ensures k in Assoc(pairs) && Assoc(pairs)[k] == pairs[i].1
      {
        if i < |pairs| - 1 {
          assert pairs[|pairs| - 1].0 != k;
          assert init[i] == pairs[i];
          assert forall j :: i < j < |init| ==> init[j].0 != k by {
            forall j | i < j < |init| ensures init[j].0 != k { assert init[j] == pairs[j]; }
          }
        }
      }
    }
  }

  // ---------------------------------------------------------------------------
  // array_unique

  /** array_unique on a list of strings: the first occurrence of each value stays, in order. */
  function Dedup(xs: seq<string>): (r: seq<string>)
    decreases |xs|
  {
    if xs == [] then []
    else
      var init := Dedup(xs[..|xs| - 1]);
      if xs[|xs| - 1] in init then init else init + [xs[|xs| - 1]]
  }

  predicate NoDuplicates(xs: seq<string>)
  {
    forall i, j :: 0 <= i < j < |xs| ==> xs[i] != xs[j]
  }

  /** array_unique keeps exactly the values of its input, each once, and the first value leads. */
  lemma {:induction false} DedupSpec(xs: seq<string>)
    ensures NoDuplicates(Dedup(xs))
    ensures forall x :: x in Dedup(xs) <==> x in xs
    ensures |xs| > 0 ==> Dedup(xs)[0] == xs[0]
    decreases |xs|
  {
    if xs != [] {
      var init := xs[..|xs| - 1];
      DedupSpec(init);
      forall x ensures x in Dedup(xs) <==> x in xs {
        assert x in xs <==> x in init || x == xs[|xs| - 1] by {
          assert xs == init + [xs[|xs| - 1]];
        }
      }
      if |init| > 0 { assert init[0] == xs[0]; }
    }
  }

  /** Where a value first occurs in a list. */
  function FirstIndex(xs: seq<string>, x: string): (k: nat)
    requires x in xs
    ensures k < |xs| && xs[k] == x
    ensures forall j :: 0 <= j < k ==> xs[j] != x
    decreases |xs|
  {
    if xs[0] == x then 0
    else
      var k := FirstIndex(xs[1..], x);
      assert forall j :: 1 <= j < k + 1 ==> xs[j] == xs[1..][j - 1];
      1 + k
  }

  /** A value that occurs in a prefix first occurs where it first occurs in that prefix. */
  lemma FirstIndexPrefix(xs: seq<string>, n: nat, x: string)
    requires n <= |xs| && x in xs[..n]
    ensures x in xs && FirstIndex(xs, x) == FirstIndex(xs[..n], x)
  {
    var m := FirstIndex(xs[..n], x);
    assert xs[m] == x;
    assert forall j :: 0 <= j < m ==> xs[j] == xs[..n][j];
  }

  /** array_unique keeps the values in the order of their first occurrences. */
  lemma {:induction false} DedupOrder(xs: seq<string>)
    ensures forall x :: x in Dedup(xs) ==> x in xs
    ensures forall i, j :: 0 <= i < j < |Dedup(xs)| ==> FirstIndex(xs, Dedup(xs)[i]) < FirstIndex(xs, Dedup(xs)[j])
    decreases |xs|
  {
    DedupSpec(xs);
    if xs != [] {
      var n := |xs| - 1;
      var init, last := xs[..n], xs[n];
      var d := Dedup(init);
      DedupOrder(init);
      DedupSpec(init);
      forall y | y in d ensures FirstIndex(xs, y) == FirstIndex(init, y) < n {
        FirstIndexPrefix(xs, n, y);
      }
      if last !in d {
        assert forall j :: 0 <= j < n ==> xs[j] == init[j];
        assert FirstIndex(xs, last) == n;
        forall i | 0 <= i < |d| ensures FirstIndex(xs, Dedup(xs)[i]) < FirstIndex(xs, Dedup(xs)[|d|]) {
          assert d[i] in d;
        }
      }
      forall i, j | 0 <= i < j < |d| ensures FirstIndex(xs, d[i]) < FirstIndex(xs, d[j]) {
        assert d[i] in d && d[j] in d;
      }
    }
  }

  /** Deduplicating twice, or deduplicating a prefix first, changes nothing. */
  lemma {:induction false} DedupAppend(xs: seq<string>, ys: seq<string>)
    ensures Dedup(Dedup(xs) + ys) == Dedup(xs + ys)
    decreases |ys|
  {
    if ys == [] {
      DedupSpec(xs);
      DedupOfDistinct(Dedup(xs));
      assert xs + ys == xs;
      assert Dedup(xs) + ys == Dedup(xs);
    } else {
      var y := ys[|ys| - 1];
      var ys' := ys[..|ys| - 1];
      DedupAppend(xs, ys');
      assert (Dedup(xs) + ys)[..|Dedup(xs) + ys| - 1] == Dedup(xs) + ys';
      assert (xs + ys)[..|xs + ys| - 1] == xs + ys';
    }
  }

  /** Appending values never disturbs the de-duplicated values already there. */
  lemma {:induction false} DedupPrefix(xs: seq<string>, ys: seq<string>)
    ensures Dedup(xs) <= Dedup(xs + ys)
    decreases |ys|
  {
    if ys == [] {
      assert xs + ys == xs;
    } else {
      var ys' := ys[..|ys| - 1];
      DedupPrefix(xs, ys');
      assert (xs + ys)[..|xs + ys| - 1] == xs + ys';
    }
  }

  /** A list without duplicates is its own array_unique. */
  lemma {:induction false} DedupOfDistinct(xs: seq<string>)
    requires NoDuplicates(xs)
    ensures Dedup(xs) == xs
    decreases |xs|
  {
    if xs != [] {
      var init := xs[..|xs| - 1];
      DedupOfDistinct(init);
      assert xs[|xs| - 1] !in init;
      assert xs == init + [xs[|xs| - 1]];
    }
  }
}
