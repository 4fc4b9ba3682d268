/**
 * Env::setValue: rewriting one `KEY=value` line of a .env file's text.
 * The file's contents, the value the environment currently reports for the
 * key, the new value and the append flag are the inputs; the new contents
 * are the result.
 */
module Env {
  import opened Php

  /** The line text `KEY=value`. */
  function Assignment(key: string, value: string): string
  {
    key + "=" + value
  }

  /**
   * The spellings of the old value that are searched for, in order: the
   * literal `null` (only when the old value is null or empty), the old value
   * in double quotes, then the bare old value. A null old value reads as "".
   */
  function OldSpellings(oldValue: Option<string>): seq<string>
  {
    var v := oldValue.GetOr("");
    var quoted := "\"" + v + "\"";
    if oldValue.None? || v == "" then ["null", quoted, v] else [quoted, v]
  }

  /** The new value as written: an empty one becomes `null`, one holding a space is quoted. */
  function Formatted(newValue: string): string
  {
    var v := if newValue == "" then "null" else newValue;
    if Contains(v, " ") then "\"" + v + "\"" else v
  }

  /** Replace every `KEY=candidate` for the first candidate present in the text; otherwise keep the text. */
  function RewriteFirst(text: string, key: string, value: string, candidates: seq<string>): string
    decreases |candidates|
  {
    if candidates == [] then text
    else if Contains(text, Assignment(key, candidates[0]))
    then ReplaceAll(text, Assignment(key, candidates[0]), Assignment(key, value))
    else RewriteFirst(text, key, value, candidates[1..])
  }

  /** The text setValue writes back. */
  function NewContents(text: string, key: string, oldValue: Option<string>, newValue: string, addKeyIfMissing: bool): string
  {
    var value := Formatted(newValue);
    if Contains(text, key + "=") then RewriteFirst(text, key, value, OldSpellings(oldValue))
    else if addKeyIfMissing then text + "\n" + Assignment(key, value)
    else text
  }

  /** setValue, step by step as the source reassigns its variables. */
  method SetValue(text: string, key: string, oldValue: Option<string>, newValue: string, addKeyIfMissing: bool)
    returns (contents: string)
    ensures contents == NewContents(text, key, oldValue, newValue, addKeyIfMissing)
  {
    contents := text;
    var envHasKey := Contains(contents, key + "=");
    var previous := oldValue.GetOr("");
    var possibleOldValues := ["\"" + previous + "\"", previous];
    if oldValue.None? || |previous| == 0 {
      possibleOldValues := ["null"] + possibleOldValues;
    }
    var envValue := newValue;
    if |envValue| == 0 {
      envValue := "null";
    }
    if Contains(envValue, " ") {
      envValue := "\"" + envValue + "\"";
    }
    assert envValue == Formatted(newValue);
    assert possibleOldValues == OldSpellings(oldValue);
    assert text + "\n" + Assignment(key, envValue) == text + "\n" + key + "=" + envValue;
    if envHasKey {
      var i := 0;
      while i < |possibleOldValues|
        invariant 0 <= i <= |possibleOldValues|
        invariant contents == text
        invariant RewriteFirst(text, key, envValue, possibleOldValues[i..])
               == RewriteFirst(text, key, envValue, possibleOldValues)
      {
        var search := key + "=" + possibleOldValues[i];
        if Contains(contents, search) {
          contents := ReplaceAll(contents, search, key + "=" + envValue);
          assert contents == RewriteFirst(text, key, envValue, possibleOldValues[i..]);
          break;
        }
        i := i + 1;
      }
      assert contents == RewriteFirst(text, key, envValue, possibleOldValues);
    } else if addKeyIfMissing {
      contents := contents + "\n" + key + "=" + envValue;
    }
  }

  /**
   * The rewrite uses the first candidate that occurs as `KEY=candidate`, replacing
   * every occurrence of it and nothing for any other candidate; when none occurs
   * the text is unchanged.
   */
  lemma {:induction false} RewriteFirstSpec(text: string, key: string, value: string, cs: seq<string>)
    ensures
      || (exists i :: 0 <= i < |cs| && FirstPresent(text, key, cs, i)
            && RewriteFirst(text, key, value, cs) == ReplaceAll(text, Assignment(key, cs[i]), Assignment(key, value)))
      || ((forall i :: 0 <= i < |cs| ==> !Contains(text, Assignment(key, cs[i])))
            && RewriteFirst(text, key, value, cs) == text)
    decreases |cs|
  {
    if cs != [] {
      if Contains(text, Assignment(key, cs[0])) {
        assert FirstPresent(text, key, cs, 0);
      } else {
        RewriteFirstSpec(text, key, value, cs[1..]);
        if exists i :: 0 <= i < |cs[1..]| && FirstPresent(text, key, cs[1..], i)
             && RewriteFirst(text, key, value, cs[1..]) == ReplaceAll(text, Assignment(key, cs[1..][i]), Assignment(key, value)) {
          var i :| 0 <= i < |cs[1..]| && FirstPresent(text, key, cs[1..], i)
             && RewriteFirst(text, key, value, cs[1..]) == ReplaceAll(text, Assignment(key, cs[1..][i]), Assignment(key, value));
          assert FirstPresent(text, key, cs, i + 1);
        } else {
          forall i | 0 <= i < |cs| ensures !Contains(text, Assignment(key, cs[i])) {
            if i > 0 { assert cs[i] == cs[1..][i - 1]; }
          }
        }
      }
    }
  }

  /** Candidate `i` occurs as `KEY=candidate` and no earlier one does. */
  predicate FirstPresent(text: string, key: string, cs: seq<string>, i: int)
    requires 0 <= i < |cs|
  {
    Contains(text, Assignment(key, cs[i])) && forall j :: 0 <= j < i ==> !Contains(text, Assignment(key, cs[j]))
  }

  /** Without `KEY=` in the text, the line is appended when asked for and the text is otherwise kept. */
  lemma MissingKey(text: string, key: string, oldValue: Option<string>, newValue: string, addKeyIfMissing: bool)
    requires !Contains(text, key + "=")
    ensures addKeyIfMissing ==> NewContents(text, key, oldValue, newValue, true) == text + "\n" + key + "=" + Formatted(newValue)
    ensures !addKeyIfMissing ==> NewContents(text, key, oldValue, newValue, false) == text
  {
  }

  /** The written value is never empty, is quoted exactly when it holds a space, and is otherwise the value itself. */
  lemma FormattedValue(newValue: string)
    ensures Formatted(newValue) != ""
    ensures newValue == "" ==> Formatted(newValue) == "null"
    ensures newValue != "" ==> (Contains(newValue, " ") <==> Formatted(newValue) == "\"" + newValue + "\"")
    ensures newValue != "" && !Contains(newValue, " ") ==> Formatted(newValue) == newValue
  {
    NoSpace("null");
    if newValue != "" && !Contains(newValue, " ") {
      assert Formatted(newValue) == newValue;
      assert |"\"" + newValue + "\""| != |newValue|;
    }
  }

  /** A word of letters and digits holds no space. */
  lemma NoSpace(w: string)
    requires forall i :: 0 <= i < |w| ==> w[i] != ' '
    ensures !Contains(w, " ")
  {
    ContainsChar(w, ' ');
  }

  /**
   * When the old value is null or empty and `KEY=` occurs, some spelling always
   * matches (the bare empty one is `KEY=` itself), so the text is always rewritten.
   */
  lemma {:induction false} EmptyOldValueAlwaysMatches(text: string, key: string, oldValue: Option<string>, newValue: string, add: bool)
    requires oldValue.None? || oldValue.value == ""
    requires Contains(text, key + "=")
    ensures exists i :: 0 <= i < |OldSpellings(oldValue)| && FirstPresent(text, key, OldSpellings(oldValue), i)
              && NewContents(text, key, oldValue, newValue, add)
                 == ReplaceAll(text, Assignment(key, OldSpellings(oldValue)[i]), Assignment(key, Formatted(newValue)))
  {
    var cs := OldSpellings(oldValue);
    assert cs[2] == "";
    assert Assignment(key, cs[2]) == key + "=";
    RewriteFirstSpec(text, key, Formatted(newValue), cs);
  }

  /**
   * When `KEY=` and some spelling of the old value occur, the written text
   * holds the new assignment `KEY=value`.
   */
  lemma RewriteWritesValue(text: string, key: string, oldValue: Option<string>, newValue: string, add: bool)
    requires Contains(text, key + "=")
    requires exists i :: 0 <= i < |OldSpellings(oldValue)| && Contains(text, Assignment(key, OldSpellings(oldValue)[i]))
    ensures Contains(NewContents(text, key, oldValue, newValue, add), Assignment(key, Formatted(newValue)))
  {
    var cs := OldSpellings(oldValue);
    RewriteFirstSpec(text, key, Formatted(newValue), cs);
    var i :| 0 <= i < |cs| && FirstPresent(text, key, cs, i)
      && RewriteFirst(text, key, Formatted(newValue), cs) == ReplaceAll(text, Assignment(key, cs[i]), Assignment(key, Formatted(newValue)));
    ReplaceIntroduces(text, Assignment(key, cs[i]), Assignment(key, Formatted(newValue)));
  }

  /** When `KEY=` occurs but no spelling of the old value does, the text is kept and nothing is appended. */
  lemma {:induction false} PresentWithoutMatch(text: string, key: string, oldValue: Option<string>, newValue: string, add: bool)
    requires Contains(text, key + "=")
    requires forall c :: c in OldSpellings(oldValue) ==> !Contains(text, Assignment(key, c))
    ensures NewContents(text, key, oldValue, newValue, add) == text
  {
    var cs := OldSpellings(oldValue);
    RewriteFirstSpec(text, key, Formatted(newValue), cs);
  }

  /**
   * Presence is a plain substring test: `KEY=` inside `MY_KEY=1` counts as present,
   * so with an old value of 5 nothing matches and nothing is appended either.
   */
  lemma KeyTailSuppressesAppend()
    ensures NewContents("MY_KEY=1", "KEY", Some("5"), "2", true) == "MY_KEY=1"
  {
    var text := "MY_KEY=1";
    assert OccursAt(text, "KEY=", 3);
    ContainsWitness(text, "KEY=", 3);
    var cs := OldSpellings(Some("5"));
    assert "\"" + "5" + "\"" == "\"5\"";
    assert cs == ["\"5\"", "5"];
    forall c | c in cs ensures !Contains(text, Assignment("KEY", c)) {
      Absent(text, Assignment("KEY", c));
    }
    PresentWithoutMatch(text, "KEY", Some("5"), "2", true);
  }

  /** A pattern of five or more characters whose fifth character the text never holds is absent from it. */
  lemma Absent(text: string, pat: string)
    requires |pat| >= 5 && forall i :: 0 <= i < |text| ==> text[i] != pat[4]
    ensures !Contains(text, pat)
  {
    ContainsAt(text, pat);
    forall i: nat ensures !OccursAt(text, pat, i) {
      if i + |pat| <= |text| { assert text[i..i + |pat|][4] == text[i + 4]; }
    }
  }
}
