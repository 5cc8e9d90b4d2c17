/** generate_corpus.py: filling a clause template by one text replacement after
    another, against filling all of its holes at once. */
module GenerateCorpus {
  import opened Prelude

  /** Python's s.replace(target, value): left to right, without overlaps. */
  function Replace(s: string, target: string, value: string): string
    requires target != ""
  {
    if |s| < |target| then s
    else if StartsWith(s, target) then value + Replace(s[|target|..], target, value)
    else [s[0]] + Replace(s[1..], target, value)
  }

  predicate BraceFree(s: string) {
    '{' !in s && '}' !in s
  }

  /** A template: plain text with named holes. */
  datatype Piece = Text(text: string) | Hole(name: string)

  type Template = seq<Piece>

  predicate PieceWellFormed(p: Piece) {
    match p
    case Text(t) => BraceFree(t)
    case Hole(n) => BraceFree(n)
  }

  predicate WellFormed(t: Template) {
    forall i :: 0 <= i < |t| ==> PieceWellFormed(t[i])
  }

  function Placeholder(name: string): string {
    "{" + name + "}"
  }

  function RenderPiece(p: Piece): string {
    match p
    case Text(t) => t
    case Hole(n) => Placeholder(n)
  }

  /** The template as the string the program stores. */
  function Render(t: Template): string {
    if t == [] then "" else RenderPiece(t[0]) + Render(t[1..])
  }

  // ----- filling all holes at once

  function FillPiece(p: Piece, values: map<string, string>): Piece {
    if p.Hole? && p.name in values then Text(values[p.name]) else p
  }

  function Fill(t: Template, values: map<string, string>): Template {
    seq(|t|, i requires 0 <= i < |t| => FillPiece(t[i], values))
  }

  // ----- filling them one name at a time

  datatype Replacement = Replacement(name: string, value: string)

  function ReplaceAll(s: string, rs: seq<Replacement>): string {
    if rs == [] then s
    else
      var last := rs[|rs| - 1];
      Replace(ReplaceAll(s, rs[..|rs| - 1]), Placeholder(last.name), last.value)
  }

  ghost predicate DistinctNames(rs: seq<Replacement>) {
    forall i, j :: 0 <= i < j < |rs| ==> rs[i].name != rs[j].name
  }

  ghost predicate AllBraceFree(rs: seq<Replacement>) {
    forall i :: 0 <= i < |rs| ==> BraceFree(rs[i].name) && BraceFree(rs[i].value)
  }

  function AsMap(rs: seq<Replacement>): map<string, string> {
    if rs == [] then map[] else AsMap(rs[..|rs| - 1])[rs[|rs| - 1].name := rs[|rs| - 1].value]
  }

  /** The nine placeholders, in the order the dictionary lists them. */
  const PLACEHOLDERS := ["provider", "client", "amount", "days", "months", "years", "rate", "state", "city"]

  method GenerateClause(template: string, values: seq<string>) returns (result: string)
    requires |values| == |PLACEHOLDERS|
    ensures result == ReplaceAll(template, Pairs(values))
  {
    result := template;
    var pairs := Pairs(values);
    for i := 0 to |pairs|
      invariant result == ReplaceAll(template, pairs[..i])
    {
      assert pairs[..i + 1][..i] == pairs[..i];
      result := Replace(result, Placeholder(pairs[i].name), pairs[i].value);
    }
    assert pairs[..|pairs|] == pairs;
  }

  function Pairs(values: seq<string>): seq<Replacement>
    requires |values| == |PLACEHOLDERS|
  {
    seq(|PLACEHOLDERS|, i requires 0 <= i < |PLACEHOLDERS| => Replacement(PLACEHOLDERS[i], values[i]))
  }

  // ----- one replacement on a rendered template

  lemma StartsWithHead(s: string, target: string)
    requires s != "" && target != ""
    ensures StartsWith(s, target) ==> s[0] == target[0]
  {
    assert StartsWith(s, target) ==> s[..|target|][0] == s[0];
  }

  lemma {:induction false} ReplaceSkipsText(text: string, rest: string, target: string, value: string)
    requires '{' !in text && target != "" && target[0] == '{'
    ensures Replace(text + rest, target, value) == text + Replace(rest, target, value)
  {
    if text == "" {
      assert text + rest == rest;
    } else {
      var s := text + rest;
      assert s[0] == text[0] && s[0] != '{';
      StartsWithHead(s, target);
      assert s[1..] == text[1..] + rest;
      ReplaceSkipsText(text[1..], rest, target, value);
      if |s| < |target| {
        assert |s[1..]| < |target|;
      }
      assert [text[0]] + text[1..] == text;
      assert [s[0]] + (text[1..] + Replace(rest, target, value)) == text + Replace(rest, target, value);
    }
  }

  lemma ReplaceHit(name: string, rest: string, value: string)
    ensures Replace(Placeholder(name) + rest, Placeholder(name), value) ==
      value + Replace(rest, Placeholder(name), value)
  {
    var s := Placeholder(name) + rest;
    assert s[..|Placeholder(name)|] == Placeholder(name);
    assert s[|Placeholder(name)|..] == rest;
  }

  /** The first closing brace of a placeholder ends its name. */
  lemma FirstClose(s: string, name: string)
    requires BraceFree(name) && StartsWith(s, Placeholder(name))
    ensures |name| + 1 < |s| && s[|name| + 1] == '}'
    ensures forall k :: 0 <= k <= |name| ==> s[k] != '}'
    ensures s[1..|name| + 1] == name
  {
    assert forall k :: 0 <= k <= |name| + 1 ==> s[k] == s[..|name| + 2][k] == Placeholder(name)[k];
  }

  /** Two brace-free names are never confused. */
  lemma NoConfusion(name: string, other: string, rest: string)
    requires BraceFree(name) && BraceFree(other)
    ensures StartsWith(Placeholder(other) + rest, Placeholder(name)) ==> name == other
  {
    var s := Placeholder(other) + rest;
    assert s[..|Placeholder(other)|] == Placeholder(other);
    FirstClose(s, other);
    if StartsWith(s, Placeholder(name)) {
      FirstClose(s, name);
    }
  }

  /** A string that does not start with the target keeps its first character. */
  lemma ReplaceSkipsOne(c: char, rest: string, target: string, value: string)
    requires target != "" && !StartsWith([c] + rest, target)
    ensures Replace([c] + rest, target, value) == [c] + Replace(rest, target, value)
  {
    var s := [c] + rest;
    assert s[0] == c && s[1..] == rest;
    if |s| < |target| {
      assert Replace(rest, target, value) == rest;
    }
  }

  lemma ReplaceMiss(name: string, other: string, rest: string, value: string)
    requires BraceFree(name) && BraceFree(other) && name != other
    ensures Replace(Placeholder(other) + rest, Placeholder(name), value) ==
      Placeholder(other) + Replace(rest, Placeholder(name), value)
  {
    hide Replace;
    NoConfusion(name, other, rest);
    var tail := other + "}";
    assert Placeholder(other) + rest == ['{'] + (tail + rest);
    ReplaceSkipsOne('{', tail + rest, Placeholder(name), value);
    ReplaceSkipsText(tail, rest, Placeholder(name), value);
    assert Placeholder(other) + Replace(rest, Placeholder(name), value) ==
      ['{'] + (tail + Replace(rest, Placeholder(name), value));
  }

  /** Replacing one placeholder in the text is filling that hole. */
  lemma {:induction false} ReplaceFillsOne(t: Template, name: string, value: string)
    requires WellFormed(t) && BraceFree(name)
    ensures Replace(Render(t), Placeholder(name), value) == Render(Fill(t, map[name := value]))
  {
    var values := map[name := value];
    if t != [] {
      var p, rest := t[0], Render(t[1..]);
      ReplaceFillsOne(t[1..], name, value);
      assert Fill(t, values)[1..] == Fill(t[1..], values);
      assert Fill(t, values)[0] == FillPiece(p, values);
      match p
      case Text(text) => ReplaceSkipsText(text, rest, Placeholder(name), value);
      case Hole(other) =>
        if other == name {
          ReplaceHit(name, rest, value);
        } else {
          ReplaceMiss(name, other, rest, value);
        }
    }
  }

  ghost predicate BraceFreeValues(values: map<string, string>) {
    forall n :: n in values ==> BraceFree(values[n])
  }

  lemma FillWellFormed(t: Template, values: map<string, string>)
    requires WellFormed(t) && BraceFreeValues(values)
    ensures WellFormed(Fill(t, values))
  {
  }

  lemma {:induction false} AsMapHas(rs: seq<Replacement>)
    requires DistinctNames(rs)
    ensures forall i :: 0 <= i < |rs| ==> rs[i].name in AsMap(rs) && AsMap(rs)[rs[i].name] == rs[i].value
    ensures forall n :: n in AsMap(rs) ==> exists i :: 0 <= i < |rs| && rs[i].name == n
  {
    if rs != [] {
      AsMapHas(rs[..|rs| - 1]);
    }
  }

  /** The last name is not among the earlier ones, and no value has a brace. */
  lemma AsMapBraceFree(rs: seq<Replacement>)
    requires DistinctNames(rs) && AllBraceFree(rs) && rs != []
    ensures rs[|rs| - 1].name !in AsMap(rs[..|rs| - 1])
    ensures BraceFreeValues(AsMap(rs[..|rs| - 1]))
  {
    AsMapHas(rs[..|rs| - 1]);
  }

  lemma FillTwice(t: Template, values: map<string, string>, name: string, value: string)
    requires name !in values
    ensures Fill(Fill(t, values), map[name := value]) == Fill(t, values[name := value])
  {
  }

  /** One replacement after another fills all the holes at once. */
  lemma {:induction false} SequentialIsSimultaneous(t: Template, rs: seq<Replacement>)
    requires WellFormed(t) && DistinctNames(rs) && AllBraceFree(rs)
    ensures ReplaceAll(Render(t), rs) == Render(Fill(t, AsMap(rs)))
  {
    if rs == [] {
      assert Fill(t, AsMap(rs)) == t;
    } else {
      var front, last := rs[..|rs| - 1], rs[|rs| - 1];
      SequentialIsSimultaneous(t, front);
      AsMapBraceFree(rs);
      FillWellFormed(t, AsMap(front));
      ReplaceFillsOne(Fill(t, AsMap(front)), last.name, last.value);
      FillTwice(t, AsMap(front), last.name, last.value);
    }
  }

  /** The order of the replacements does not matter. */
  lemma OrderIndependent(t: Template, rs: seq<Replacement>, rs': seq<Replacement>)
    requires WellFormed(t) && DistinctNames(rs) && AllBraceFree(rs)
    requires multiset(rs) == multiset(rs')
    ensures ReplaceAll(Render(t), rs) == ReplaceAll(Render(t), rs')
  {
    SamePairs(rs, rs');
    SequentialIsSimultaneous(t, rs);
    SequentialIsSimultaneous(t, rs');
  }

  lemma SameMembers(rs: seq<Replacement>, rs': seq<Replacement>)
    requires multiset(rs) == multiset(rs')
    ensures forall r :: r in rs <==> r in rs'
  {
    forall r
      ensures r in rs <==> r in rs'
    {
      assert r in rs <==> r in multiset(rs);
      assert r in rs' <==> r in multiset(rs');
    }
  }

  lemma AsMapContains(rs: seq<Replacement>, rs': seq<Replacement>)
    requires DistinctNames(rs) && DistinctNames(rs')
    requires forall r :: r in rs ==> r in rs'
    ensures forall n :: n in AsMap(rs) ==> n in AsMap(rs') && AsMap(rs)[n] == AsMap(rs')[n]
  {
    AsMapHas(rs);
    AsMapHas(rs');
    forall n | n in AsMap(rs)
      ensures n in AsMap(rs') && AsMap(rs)[n] == AsMap(rs')[n]
    {
      var i :| 0 <= i < |rs| && rs[i].name == n;
      assert rs[i] in rs';
      var j :| 0 <= j < |rs'| && rs'[j] == rs[i];
    }
  }

  lemma SamePairs(rs: seq<Replacement>, rs': seq<Replacement>)
    requires DistinctNames(rs) && AllBraceFree(rs) && multiset(rs) == multiset(rs')
    ensures DistinctNames(rs') && AllBraceFree(rs') && AsMap(rs) == AsMap(rs')
  {
    SameMembers(rs, rs');
    DistinctAgain(rs, rs');
    AsMapContains(rs, rs');
    AsMapContains(rs', rs);
    forall i | 0 <= i < |rs'|
      ensures BraceFree(rs'[i].name) && BraceFree(rs'[i].value)
    {
      assert rs'[i] in rs;
    }
  }

  /** A rearrangement of pairs with distinct names has distinct names. */
  lemma DistinctAgain(rs: seq<Replacement>, rs': seq<Replacement>)
    requires DistinctNames(rs) && multiset(rs) == multiset(rs')
    ensures DistinctNames(rs')
  {
    SameMembers(rs, rs');
    forall i, j | 0 <= i < j < |rs'|
      ensures rs'[i].name != rs'[j].name
    {
      OneOccurrence(rs, rs'[i]);
      if rs'[i] == rs'[j] {
        TwoOccurrences(rs', i, j);
      } else {
        assert rs'[i] in rs && rs'[j] in rs;
      }
    }
  }

  lemma TwoOccurrences(rs: seq<Replacement>, i: nat, j: nat)
    requires i < j < |rs| && rs[i] == rs[j]
    ensures multiset(rs)[rs[i]] >= 2
  {
    assert rs == rs[..i] + [rs[i]] + rs[i + 1..j] + [rs[j]] + rs[j + 1..];
  }

  lemma {:induction false} OneOccurrence(rs: seq<Replacement>, r: Replacement)
    requires DistinctNames(rs)
    ensures multiset(rs)[r] <= 1
  {
    if rs != [] {
      var front, last := rs[..|rs| - 1], rs[|rs| - 1];
      OneOccurrence(front, r);
      assert rs == front + [last];
      assert last !in front;
    }
  }

  // ----- no brace is left

  /** A filled template has no brace exactly when every hole had a value. */
  lemma {:induction false} BraceFreeIffAllFilled(t: Template, values: map<string, string>)
    requires WellFormed(t) && BraceFreeValues(values)
    ensures BraceFree(Render(Fill(t, values))) <==> forall i :: 0 <= i < |t| && t[i].Hole? ==> t[i].name in values
  {
    if t != [] {
      BraceFreeIffAllFilled(t[1..], values);
      assert Fill(t, values)[1..] == Fill(t[1..], values);
      var filled := FillPiece(t[0], values);
      assert Render(Fill(t, values)) == RenderPiece(filled) + Render(Fill(t[1..], values));
      if filled.Hole? {
        assert RenderPiece(filled)[0] == '{';
      }
      assert forall i :: 1 <= i < |t| ==> t[i] == t[1..][i - 1];
    }
  }

  /** Templates and their fillings are read piece by piece. */
  lemma {:induction false} RenderConcat(t: Template, u: Template)
    ensures Render(t + u) == Render(t) + Render(u)
  {
    hide RenderPiece;
    if t == [] {
      assert t + u == u;
    } else {
      assert (t + u)[1..] == t[1..] + u;
      RenderConcat(t[1..], u);
      assert RenderPiece(t[0]) + Render(t[1..] + u) == RenderPiece(t[0]) + Render(t[1..]) + Render(u);
    }
  }

  lemma FillConcat(t: Template, u: Template, values: map<string, string>)
    ensures Fill(t + u, values) == Fill(t, values) + Fill(u, values)
  {
    hide FillPiece;
  }

  /** Text stands for itself, a hole for its name in braces until it has a value. */
  lemma RenderOne(text: string, name: string, values: map<string, string>)
    ensures Render([Text(text)]) == text && Render(Fill([Text(text)], values)) == text
    ensures Render([Hole(name)]) == "{" + name + "}"
    ensures Render(Fill([Hole(name)], values)) == if name in values then values[name] else "{" + name + "}"
  {
    OnePiece(Text(text));
    OnePiece(Hole(name));
    OnePiece(FillPiece(Hole(name), values));
    assert Fill([Text(text)], values) == [Text(text)];
    assert Fill([Hole(name)], values) == [FillPiece(Hole(name), values)];
  }

  lemma OnePiece(p: Piece)
    ensures Render([p]) == RenderPiece(p)
  {
    assert [p][1..] == [];
  }

  /** Which value goes where. */
  function Named(values: seq<string>): map<string, string>
    requires |values| == 9
  {
    map["provider" := values[0], "client" := values[1], "amount" := values[2], "days" := values[3],
        "months" := values[4], "years" := values[5], "rate" := values[6], "state" := values[7], "city" := values[8]]
  }

  lemma PairsAreNamed(values: seq<string>)
    requires |values| == 9
    ensures AsMap(Pairs(values)) == Named(values)
  {
    KnownNames();
    AsMapHas(Pairs(values));
    forall i | 0 <= i < 9
      ensures PLACEHOLDERS[i] in AsMap(Pairs(values)) && AsMap(Pairs(values))[PLACEHOLDERS[i]] == values[i]
    {
      assert Pairs(values)[i].name == PLACEHOLDERS[i] && Pairs(values)[i].value == values[i];
    }
    NamedAt(values);
    assert AsMap(Pairs(values)).Keys == Named(values).Keys;
  }

  lemma NamedAt(values: seq<string>)
    requires |values| == 9
    ensures forall i :: 0 <= i < 9 ==> PLACEHOLDERS[i] in Named(values) && Named(values)[PLACEHOLDERS[i]] == values[i]
    ensures forall n :: n in Named(values) ==> exists i :: 0 <= i < 9 && PLACEHOLDERS[i] == n
  {
    KnownNames();
    forall n | n in Named(values)
      ensures exists i :: 0 <= i < 9 && PLACEHOLDERS[i] == n
    {
      assert n in PLACEHOLDERS;
    }
  }

  /** Every clause generated from a template is the simultaneous substitution of
      the nine values for their names, and has no brace left exactly when the
      template names no other. */
  lemma GeneratedClause(t: Template, values: seq<string>)
    requires WellFormed(t) && |values| == 9
    requires forall i :: 0 <= i < |values| ==> BraceFree(values[i])
    ensures ReplaceAll(Render(t), Pairs(values)) == Render(Fill(t, Named(values)))
    ensures BraceFree(ReplaceAll(Render(t), Pairs(values)))
      <==> forall i :: 0 <= i < |t| && t[i].Hole? ==> t[i].name in Named(values)
  {
    var pairs := Pairs(values);
    PairsAreUsable(values);
    SequentialIsSimultaneous(t, pairs);
    PairsAreNamed(values);
    BraceFreeIffAllFilled(t, AsMap(pairs));
  }

  lemma PairsAreUsable(values: seq<string>)
    requires |values| == |PLACEHOLDERS| && forall i :: 0 <= i < |values| ==> BraceFree(values[i])
    ensures DistinctNames(Pairs(values)) && AllBraceFree(Pairs(values))
    ensures BraceFreeValues(AsMap(Pairs(values)))
  {
    KnownNames();
    assert DistinctNames(Pairs(values)) && AllBraceFree(Pairs(values));
    AsMapHas(Pairs(values));
  }

  lemma KnownNames()
    ensures forall i, j :: 0 <= i < j < |PLACEHOLDERS| ==> PLACEHOLDERS[i] != PLACEHOLDERS[j]
    ensures forall i :: 0 <= i < |PLACEHOLDERS| ==> BraceFree(PLACEHOLDERS[i])
  {
    assert PLACEHOLDERS[0][0] == 'p' && PLACEHOLDERS[1][0] == 'c' && PLACEHOLDERS[1][1] == 'l';
    assert PLACEHOLDERS[2][0] == 'a' && PLACEHOLDERS[3][0] == 'd' && PLACEHOLDERS[4][0] == 'm';
    assert PLACEHOLDERS[5][0] == 'y' && PLACEHOLDERS[6][0] == 'r' && PLACEHOLDERS[7][0] == 's';
    assert PLACEHOLDERS[8][0] == 'c' && PLACEHOLDERS[8][1] == 'i';
  }
}
