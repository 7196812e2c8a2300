/** The text form of classical conditions, `(k==v)&&(k==v)...`: the writer used
    by the gate translator and the reader used by the commutation engine. */
module ConditionText {
  import opened Wrappers
  import opened Text

  /** One condition dictionary in insertion order: pairs (bit index, value). */
  type Entries = seq<(int, int)>

  /** A dictionary's items have pairwise distinct keys. */
  predicate DistinctKeys(es: Entries) {
    forall i, j :: 0 <= i < j < |es| ==> es[i].0 != es[j].0
  }

  /** One clause, `(k==v)`. */
  function Clause(k: int, v: int): string {
    "(" + IntToString(k) + "==" + IntToString(v) + ")"
  }

  function Clauses(es: Entries): (cs: seq<string>)
    ensures |cs| == |es|
    ensures forall i :: 0 <= i < |es| ==> cs[i] == Clause(es[i].0, es[i].1)
  {
    seq(|es|, i requires 0 <= i < |es| => Clause(es[i].0, es[i].1))
  }

  /** `write_condition`: the clauses joined by `&&`; the empty condition
      (the `""` default, or an empty dictionary) is written as `""`. */
  function WriteCondition(es: Entries): (text: string)
    ensures text == "" <==> |es| == 0
  {
    var cs := Clauses(es);
    assert |cs| > 0 ==> |Join(cs, "&&")| >= |cs[0]| >= 1 by {
      if |cs| > 0 { JoinStartsWithFirst(cs, "&&"); }
    }
    Join(cs, "&&")
  }

  /** One clause as `parse_conditions` reads it: the text before the first
      `==` without its first character, and the text after it without its last
      character. A clause with no `==` raises `IndexError` (`None`). */
  function ParseClause(clause: string): (r: Option<(string, string)>)
    ensures '=' !in clause ==> r.None?
  {
    var parts := Split(clause, "==");
    assert '=' !in clause ==> |parts| == 1 by {
      if '=' !in clause { SplitWithoutSeparator(clause, "=="); }
    }
    if |parts| < 2 then None else Some((Drop(parts[0], 1), DropLast(parts[1], 1)))
  }

  /** The dictionary comprehension over the clauses: later clauses overwrite
      earlier ones with the same key; any malformed clause aborts the whole. */
  function ParseClauses(cs: seq<string>): (r: Option<map<string, string>>)
    ensures r.Some? <==> forall i :: 0 <= i < |cs| ==> ParseClause(cs[i]).Some?
    decreases |cs|
  {
    if |cs| == 0 then Some(map[])
    else
      var front := cs[..|cs| - 1];
      assert forall i :: 0 <= i < |front| ==> front[i] == cs[i];
      match ParseClauses(front)
      case None => None
      case Some(init) =>
        match ParseClause(cs[|cs| - 1])
        case None => None
        case Some(kv) => Some(init[kv.0 := kv.1])
  }

  /** Every clause's bit is a key of the dictionary, and the last clause's
      value is the one kept for its bit. */
  lemma {:induction false} ParseClausesKeys(cs: seq<string>)
    requires ParseClauses(cs).Some?
    ensures forall i :: 0 <= i < |cs| ==> ParseClause(cs[i]).value.0 in ParseClauses(cs).value
    ensures |cs| > 0 ==> ParseClauses(cs).value[ParseClause(cs[|cs| - 1]).value.0] == ParseClause(cs[|cs| - 1]).value.1
    decreases |cs|
  {
    if |cs| > 0 {
      var front := cs[..|cs| - 1];
      ParseClausesKeys(front);
      forall i | 0 <= i < |front| ensures front[i] == cs[i] { }
    }
  }

  /** `parse_conditions`: the empty string is the empty map, otherwise the
      clauses separated by `&&` are read one by one. */
  function ParseConditions(text: string): (r: Option<map<string, string>>)
    ensures text == "" ==> r == Some(map[])
  {
    if text == "" then Some(map[]) else ParseClauses(Split(text, "&&"))
  }

  /** The dictionary a condition becomes once written and read back: each key
      and value rendered as decimal text, later entries winning. */
  function Rendered(es: Entries): map<string, string>
    decreases |es|
  {
    if |es| == 0 then map[]
    else Rendered(es[..|es| - 1])[IntToString(es[|es| - 1].0) := IntToString(es[|es| - 1].1)]
  }

  lemma ParseOneClause(k: int, v: int)
    ensures ParseClause(Clause(k, v)) == Some((IntToString(k), IntToString(v)))
  {
    var ks, vs := IntToString(k), IntToString(v);
    assert '=' !in "(" + ks by {
      forall i | 0 <= i < |"(" + ks| ensures ("(" + ks)[i] != '=' {
        if i > 0 { assert ("(" + ks)[i] == ks[i - 1]; }
      }
    }
    assert '=' !in vs + ")" by {
      forall i | 0 <= i < |vs + ")"| ensures (vs + ")")[i] != '=' {
        if i < |vs| { assert (vs + ")")[i] == vs[i]; }
      }
    }
    assert Clause(k, v) == ("(" + ks) + "==" + (vs + ")");
    SplitAfterPiece("(" + ks, vs + ")", "==");
    SplitWithoutSeparator(vs + ")", "==");
    assert ("(" + ks)[1..] == ks;
    assert (vs + ")")[..|vs|] == vs;
  }

  lemma ClauseHasNoAmpersand(k: int, v: int)
    ensures '&' !in Clause(k, v)
  {
    var ks, vs := IntToString(k), IntToString(v);
    var c := Clause(k, v);
    forall i | 0 <= i < |c| ensures c[i] != '&' {
      if 1 <= i < 1 + |ks| {
        assert c[i] == ks[i - 1];
      } else if 3 + |ks| <= i < 3 + |ks| + |vs| {
        assert c[i] == vs[i - 3 - |ks|];
      }
    }
  }

  lemma {:induction false} ParseRenderedClauses(es: Entries)
    ensures ParseClauses(Clauses(es)) == Some(Rendered(es))
    decreases |es|
  {
    if |es| > 0 {
      var init := es[..|es| - 1];
      assert Clauses(es)[..|es| - 1] == Clauses(init);
      ParseRenderedClauses(init);
      ParseOneClause(es[|es| - 1].0, es[|es| - 1].1);
    }
  }

  /** Reading back what `write_condition` wrote recovers the dictionary, with
      keys and values as their decimal text. */
  lemma ConditionRoundTrip(es: Entries)
    ensures ParseConditions(WriteCondition(es)) == Some(Rendered(es))
  {
    var cs := Clauses(es);
    if |es| > 0 {
      forall i | 0 <= i < |cs| ensures "&&"[0] !in cs[i] {
        ClauseHasNoAmpersand(es[i].0, es[i].1);
      }
      SplitJoin(cs, "&&");
      assert WriteCondition(es) != "" by {
        assert |cs[0]| >= 1;
        JoinStartsWithFirst(cs, "&&");
      }
    }
    ParseRenderedClauses(es);
  }

  lemma {:induction false} JoinStartsWithFirst(pieces: seq<string>, sep: string)
    requires |pieces| >= 1
    ensures |Join(pieces, sep)| >= |pieces[0]|
  {
  }

  /** The read-back map holds no key that was not written. */
  lemma {:induction false} RenderedKeys(es: Entries)
    ensures forall x :: x in Rendered(es) ==> exists i :: 0 <= i < |es| && x == IntToString(es[i].0)
    decreases |es|
  {
    if |es| > 0 {
      var n := |es| - 1;
      var init := es[..n];
      var k := IntToString(es[n].0);
      assert Rendered(es) == Rendered(init)[k := IntToString(es[n].1)];
      RenderedKeys(init);
      forall x | x in Rendered(es)
        ensures exists i :: 0 <= i < |es| && x == IntToString(es[i].0)
      {
        if x == k {
          assert x == IntToString(es[n].0);
        } else {
          assert x in Rendered(init);
          var i :| 0 <= i < n && x == IntToString(init[i].0);
          assert init[i] == es[i];
        }
      }
    }
  }

  /** For a genuine dictionary (distinct keys), each written key reads back
      with its own written value. */
  lemma {:induction false} RenderedLookup(es: Entries)
    requires DistinctKeys(es)
    ensures forall i :: 0 <= i < |es| ==>
      IntToString(es[i].0) in Rendered(es) && Rendered(es)[IntToString(es[i].0)] == IntToString(es[i].1)
    decreases |es|
  {
    if |es| > 0 {
      var n := |es| - 1;
      var init := es[..n];
      assert DistinctKeys(init) by {
        forall i, j | 0 <= i < j < n ensures init[i].0 != init[j].0 {
          assert init[i] == es[i] && init[j] == es[j];
        }
      }
      RenderedLookup(init);
      forall i | 0 <= i < n
        ensures IntToString(es[i].0) in Rendered(es) && Rendered(es)[IntToString(es[i].0)] == IntToString(es[i].1)
      {
        assert init[i] == es[i];
        if IntToString(es[i].0) == IntToString(es[n].0) {
          IntToStringInjective(es[i].0, es[n].0);
          assert false;
        }
      }
    }
  }
}
