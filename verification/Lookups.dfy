/**
 What looking up an option means, in terms of where its name and an equals sign occur.
 */
module Lookups {
  import opened Results
  import opened CStrings
  import opened Descriptors

  /** The name occurs in the option at position `i`. */
  predicate OccursAt(o: string, name: string, i: nat) { i <= |o| && name <= o[i..] }

  ghost predicate Occurs(o: string, name: string) { exists i: nat :: OccursAt(o, name, i) }

  /** Position `i` is the first at which the name occurs. */
  ghost predicate FirstAt(o: string, name: string, i: nat) {
    OccursAt(o, name, i) && forall h: nat :: h < i ==> !OccursAt(o, name, h)
  }

  /** Position `i` is that of the first equals sign from `from` on. */
  predicate EqualsAt(o: string, from: nat, i: nat) { from <= i < |o| && o[i] == '=' && '=' !in o[from..i] }

  /** From position `from` on, `value` is what follows the first equals sign, or all there is if there is none. */
  ghost predicate ValueFrom(o: string, from: nat, value: string)
    requires from <= |o|
  {
    if '=' in o[from..] then exists i: nat :: EqualsAt(o, from, i) && value == o[i + 1..]
    else value == o[from..]
  }

  /** The option answers with `value`. */
  ghost predicate AnswersWith(o: string, name: string, value: string) {
    exists i: nat :: FirstAt(o, name, i) && ValueFrom(o, i, value)
  }

  /** What a lookup of the name must answer: the first option in which it occurs. */
  ghost predicate Answers(options: seq<string>, name: string, value: string) {
    exists k: nat :: k < |options| && (forall j: nat :: j < k ==> !Occurs(options[j], name)) && AnswersWith(options[k], name, value)
  }

  lemma SearchIs(o: string, name: string)
    ensures Search(o, name).None? <==> !Occurs(o, name)
    ensures Search(o, name).Some? ==> FirstAt(o, name, Search(o, name).value)
  {
    if Search(o, name).Some? {
      assert OccursAt(o, name, Search(o, name).value);
    }
  }

  lemma ValueIs(o: string, from: nat)
    requires from <= |o|
    ensures var rest := o[from..]; var eq := IndexOf(rest, '=');
            ValueFrom(o, from, if eq < |rest| then rest[eq + 1..] else rest)
  {
    var rest := o[from..];
    var eq := IndexOf(rest, '=');
    if eq < |rest| {
      assert o[from..from + eq] == rest[..eq];
      assert EqualsAt(o, from, from + eq) && o[from + eq + 1..] == rest[eq + 1..];
    } else {
      assert rest[..eq] == rest;
    }
  }

  lemma NoneBefore(o: string, from: nat, i: nat, h: nat)
    requires EqualsAt(o, from, i) && from <= h < i
    ensures o[h] != '='
  {
    assert o[from..i][h - from] == o[h];
  }

  /** There is at most one value. */
  lemma ValueIsUnique(o: string, from: nat, v: string, w: string)
    requires from <= |o| && ValueFrom(o, from, v) && ValueFrom(o, from, w)
    ensures v == w
  {
    if '=' in o[from..] {
      var i: nat :| EqualsAt(o, from, i) && v == o[i + 1..];
      var h: nat :| EqualsAt(o, from, h) && w == o[h + 1..];
      if i < h { NoneBefore(o, from, h, i); }
      if h < i { NoneBefore(o, from, i, h); }
    }
  }

  /** The first option answers, or else the others do. */
  lemma FirstAnswers(options: seq<string>, name: string, value: string)
    requires options != []
    ensures Answers(options, name, value) <==>
              if Occurs(options[0], name) then AnswersWith(options[0], name, value) else Answers(options[1..], name, value)
  {
    hide OccursAt, ValueFrom;
    assert AnswersWith(options[0], name, value) ==> Occurs(options[0], name);
    hide Occurs, AnswersWith;
    var rest := options[1..];
    if Answers(options, name, value) && !Occurs(options[0], name) {
      var k: nat :| k < |options| && (forall j: nat :: j < k ==> !Occurs(options[j], name)) && AnswersWith(options[k], name, value);
      assert k > 0 && rest[k - 1] == options[k];
      assert forall j: nat :: j < k - 1 ==> rest[j] == options[j + 1];
    }
    if Answers(rest, name, value) && !Occurs(options[0], name) {
      var k: nat :| k < |rest| && (forall j: nat :: j < k ==> !Occurs(rest[j], name)) && AnswersWith(rest[k], name, value);
      assert options[k + 1] == rest[k];
      assert forall j: nat :: 0 < j < k + 1 ==> options[j] == rest[j - 1];
    }
  }

  /** An option in which the name occurs has exactly the answer that the code computes. */
  lemma OptionAnswers(o: string, name: string, value: string)
    requires Search(o, name).Some?
    ensures var rest := o[Search(o, name).value..]; var eq := IndexOf(rest, '=');
            AnswersWith(o, name, value) <==> value == if eq < |rest| then rest[eq + 1..] else rest
  {
    var at := Search(o, name).value;
    SearchIs(o, name);
    ValueIs(o, at);
    var rest := o[at..];
    var eq := IndexOf(rest, '=');
    var answer := if eq < |rest| then rest[eq + 1..] else rest;
    if AnswersWith(o, name, value) {
      var i: nat :| FirstAt(o, name, i) && ValueFrom(o, i, value);
      assert i == at;
      ValueIsUnique(o, at, value, answer);
    }
  }

  /**
   vfi_get_option finds nothing exactly if the name occurs in no option; and it answers `value` exactly if the
   first option in which the name occurs has it behind its next equals sign, or has no such sign and is it.
   */
  lemma {:induction false} LookupAnswers(options: seq<string>, name: string, value: string)
    ensures GetOption(options, name) == Some(value) <==> Answers(options, name, value)
    ensures GetOption(options, name) == None <==> forall k :: 0 <= k < |options| ==> !Occurs(options[k], name)
  {
    if options != [] {
      SearchIs(options[0], name);
      if Search(options[0], name).Some? {
        OptionAnswers(options[0], name, value);
      }
      hide Occurs, AnswersWith, Search, IndexOf;
      FirstAnswers(options, name, value);
      LookupAnswers(options[1..], name, value);
      hide Answers;
      assert forall k :: 0 < k < |options| ==> options[k] == options[1..][k - 1];
    }
  }
}
