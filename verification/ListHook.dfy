/** The configuration hook that turns one string into a list of strings. */
module ListHook {
  import opened Text
  import opened Ordered

  /** The text between the brackets, if the string is bracketed, without blanks around it. */
  function Unbracketed(data: string): string {
    var raw := TrimSpace(data);
    if HasPrefix(raw, "[") && HasSuffix(raw, "]") then TrimSpace(raw[1..|raw| - 1]) else raw
  }

  function Item(part: string): string { Trim(TrimSpace(part), IsQuote) }

  function ParseList(data: string): seq<string> {
    var raw := Unbracketed(data);
    if raw == "" then [] else Map(Item, Split(raw, ','))
  }

  method StringToStringSlice(data: string) returns (values: seq<string>)
    ensures values == ParseList(data)
  {
    var raw := TrimSpace(data);
    if HasPrefix(raw, "[") && HasSuffix(raw, "]") {
      raw := TrimSpace(raw[1..|raw| - 1]);
    }
    assert raw == Unbracketed(data);
    if raw == "" { return []; }
    var parts := Split(raw, ',');
    var slots := new string[|parts|](i requires 0 <= i < |parts| => parts[i]);
    assert slots[..] == parts;
    TrimItems(slots);
    values := slots[..];
  }

  /** The loop of the hook, which rewrites the split parts in place. */
  method TrimItems(values: array<string>)
    modifies values
    ensures values[..] == Map(Item, old(values[..]))
  {
    for i := 0 to values.Length
      invariant forall k :: 0 <= k < i ==> values[k] == Item(old(values[k]))
      invariant forall k :: i <= k < values.Length ==> values[k] == old(values[k])
    {
      values[i] := Trim(TrimSpace(values[i]), IsQuote);
    }
  }

  // ---------------------------------------------------------------- printing and reading back

  function Quoted(s: string): string { ['"'] + s + ['"'] }

  /** A list as it is usually written: quoted elements in brackets, separated by a comma and a blank. */
  function Print(values: seq<string>): string {
    ['['] + Join(Map(Quoted, values), ", ") + [']']
  }

  /** What an element must be like to survive: no comma, and no quote at either end. */
  predicate Plain(s: string) { ',' !in s && Clean(s, IsQuote) }

  function Inner(values: seq<string>): string { Join(Map(Quoted, values), ", ") }

  lemma InnerCons(values: seq<string>)
    requires |values| > 1
    ensures Inner(values) == Quoted(values[0]) + [','] + ([' '] + Inner(values[1..]))
  {
    assert Map(Quoted, values) == [Quoted(values[0])] + Map(Quoted, values[1..]);
    JoinCons(Quoted(values[0]), Map(Quoted, values[1..]), ", ");
    assert Quoted(values[0]) + ", " + Inner(values[1..]) == Quoted(values[0]) + [','] + ([' '] + Inner(values[1..]));
  }

  lemma {:induction false} InnerEnds(values: seq<string>)
    requires values != []
    ensures var s := Inner(values); s != [] && s[0] == '"' && s[|s| - 1] == '"'
  {
    if |values| == 1 {
      assert Map(Quoted, values) == [Quoted(values[0])];
    } else {
      InnerCons(values);
      InnerEnds(values[1..]);
    }
  }

  lemma PrintUnbracketed(values: seq<string>)
    ensures Unbracketed(Print(values)) == Inner(values)
  {
    var s := Print(values);
    assert !IsSpace(s[0]) && !IsSpace(s[|s| - 1]);
    assert TrimSpace(s) == s;
    assert s[1..|s| - 1] == Inner(values);
    if values != [] {
      InnerEnds(values);
      assert Clean(Inner(values), IsSpace);
    } else {
      assert Map(Quoted, values) == [];
    }
  }

  function Commas(values: seq<string>): nat {
    if values == [] then 0 else Count(values[0], ',') + Commas(values[1..])
  }

  lemma {:induction false} CommasExactly(values: seq<string>)
    ensures Commas(values) == 0 <==> forall v <- values :: ',' !in v
  {
    if values != [] {
      CountZero(values[0], ',');
      CommasExactly(values[1..]);
      assert values == [values[0]] + values[1..];
    }
  }

  lemma CountQuoted(s: string)
    ensures Count(Quoted(s), ',') == Count(s, ',')
  {
    CountAppend(['"'] + s, ['"'], ',');
    CountAppend(['"'], s, ',');
  }

  lemma {:induction false} CountInner(values: seq<string>)
    requires values != []
    ensures Count(Inner(values), ',') == |values| - 1 + Commas(values)
  {
    CountQuoted(values[0]);
    if |values| == 1 {
      assert Map(Quoted, values) == [Quoted(values[0])];
      assert Commas(values[1..]) == 0;
    } else {
      InnerCons(values);
      CountAround(Quoted(values[0]), ',', [' '] + Inner(values[1..]));
      assert ([' '] + Inner(values[1..]))[1..] == Inner(values[1..]);
      CountInner(values[1..]);
    }
  }

  function Spaced(s: string): string { [' '] + Quoted(s) }

  /** The parts of a printed list without further commas: every element quoted, all but the first after a blank. */
  lemma {:induction false} SplitInner(values: seq<string>, lead: string)
    requires values != [] && (forall v <- values :: ',' !in v) && ',' !in lead
    ensures Split(lead + Inner(values), ',') == [lead + Quoted(values[0])] + Map(Spaced, values[1..])
  {
    var head := lead + Quoted(values[0]);
    assert ',' !in head;
    if |values| == 1 {
      assert Map(Quoted, values) == [Quoted(values[0])];
      SplitWhole(head, ',');
    } else {
      InnerCons(values);
      hide Inner, Split;
      var tail := [' '] + Inner(values[1..]);
      assert lead + Inner(values) == head + [','] + tail;
      SplitHead(head, ',', tail);
      SplitInner(values[1..], [' ']);
      assert Map(Spaced, values[1..]) == [Spaced(values[1])] + Map(Spaced, values[1..][1..]);
    }
  }

  /** Reading one printed element gives it back exactly when no quote stands at its ends. */
  lemma ItemOfQuoted(s: string, lead: string)
    requires lead == [] || lead == [' ']
    ensures Item(lead + Quoted(s)) == s <==> Clean(s, IsQuote)
  {
    var q := Quoted(s);
    assert q[0] == '"' && q[|q| - 1] == '"';
    assert Clean(q, IsSpace);
    assert lead + q + [] == lead + q;
    TrimPadded(lead, q, [], IsSpace);
    if Clean(s, IsQuote) { TrimPadded(['"'], s, ['"'], IsQuote); }
  }

  /** Printing a list and reading it back gives the same list exactly when every element is plain. */
  lemma RoundTripExactly(values: seq<string>)
    ensures ParseList(Print(values)) == values <==> forall v <- values :: Plain(v)
  {
    PrintUnbracketed(values);
    hide Unbracketed, Print, Item;
    if values == [] {
      assert Map(Quoted, values) == [];
    } else {
      InnerEnds(values);
      CountInner(values);
      CommasExactly(values);
      if forall v <- values :: ',' !in v {
        SplitInner(values, []);
        assert [] + Inner(values) == Inner(values);
        ItemsExactly(values, Split(Inner(values), ','));
      }
    }
  }

  lemma ItemsExactly(values: seq<string>, parts: seq<string>)
    requires values != [] && |parts| == |values| && parts[0] == [] + Quoted(values[0])
    requires forall i :: 1 <= i < |values| ==> parts[i] == [' '] + Quoted(values[i])
    ensures Map(Item, parts) == values <==> forall v <- values :: Clean(v, IsQuote)
  {
    hide Item;
    forall i | 0 <= i < |values| ensures Map(Item, parts)[i] == values[i] <==> Clean(values[i], IsQuote) {
      ItemOfQuoted(values[i], if i == 0 then [] else [' ']);
    }
    if Map(Item, parts) == values {
      forall v <- values ensures Clean(v, IsQuote) {
        var i :| 0 <= i < |values| && values[i] == v;
        assert Map(Item, parts)[i] == values[i];
      }
    }
  }

  // ---------------------------------------------------------------- without brackets

  /** An element that survives without quotes: no comma, and no quote or blank at either end. */
  predicate Bare(s: string) {
    ',' !in s && (s == "" || (s[0] != '"' && s[0] != '\'' && !IsSpace(s[0]) &&
      s[|s| - 1] != '"' && s[|s| - 1] != '\'' && !IsSpace(s[|s| - 1])))
  }

  lemma {:induction false} CountJoin(values: seq<string>)
    requires values != []
    ensures Count(Join(values, ","), ',') == |values| - 1 + Commas(values)
  {
    if |values| == 1 {
      assert Commas(values[1..]) == 0;
    } else {
      CountAround(values[0], ',', Join(values[1..], ","));
      CountJoin(values[1..]);
    }
  }

  lemma ShorterOrSame(s: string, cut: char -> bool)
    ensures |Trim(s, cut)| <= |s| && (!Clean(s, cut) ==> |Trim(s, cut)| < |s|)
  {
    var r := TrimLeft(s, cut);
    TrimLeftEnds(s, cut);
    TrimRightEnds(r, cut);
    if s != [] && cut(s[0]) {
      TrimLeftEnds(s[1..], cut);
    } else if s != [] && cut(s[|s| - 1]) {
      TrimRightEnds(s[..|s| - 1], cut);
    }
  }

  lemma BareItem(s: string)
    requires ',' !in s
    ensures Item(s) == s <==> Bare(s)
  {
    ShorterOrSame(s, IsSpace);
    ShorterOrSame(TrimSpace(s), IsQuote);
    assert Clean(s, IsSpace) && Clean(s, IsQuote) <==> Bare(s);
  }

  /** One pair of quotes of either kind around an element is cut away. */
  lemma QuotesAreCut(s: string, quote: char)
    requires (quote == '"' || quote == '\'') && Clean(s, IsQuote)
    ensures Item([quote] + s + [quote]) == s
  {
    var q := [quote] + s + [quote];
    assert q[0] == quote && q[|q| - 1] == quote && Clean(q, IsSpace);
    TrimPadded([quote], s, [quote], IsQuote);
  }

  /**
   * A list written without brackets, as its elements with commas between them and no blanks around, is read
   * back exactly when every element is bare, and the text is not empty.
   */
  lemma BareRoundTripExactly(values: seq<string>)
    requires values != [] && Clean(Join(values, ","), IsSpace)
    requires !(HasPrefix(Join(values, ","), "[") && HasSuffix(Join(values, ","), "]"))
    ensures ParseList(Join(values, ",")) == values <==> values != [""] && forall v <- values :: Bare(v)
  {
    var text := Join(values, ",");
    assert Unbracketed(text) == text;
    CountJoin(values);
    CommasExactly(values);
    hide Unbracketed, Item, Bare;
    if forall v <- values :: ',' !in v {
      SplitJoin(values, ',');
      forall v <- values ensures Item(v) == v <==> Bare(v) { BareItem(v); }
      ItemsSame(values);
      EmptyText(values);
    } else {
      var v :| v in values && ',' in v;
      assert !Bare(v) by { BareHasNoComma(v); }
    }
  }

  /** A blank text, and one of two brackets with blanks between them, stand for no element. */
  lemma NoElements(blanks: string)
    requires forall c <- blanks :: IsSpace(c)
    ensures ParseList(blanks) == [] && ParseList(['['] + blanks + [']']) == []
  {
    TrimPadded(blanks, [], [], IsSpace);
    assert blanks + [] + [] == blanks;
    var s := ['['] + blanks + [']'];
    assert s[0] == '[' && s[|s| - 1] == ']' && TrimSpace(s) == s && s[1..|s| - 1] == blanks;
  }

  lemma BareHasNoComma(s: string)
    ensures Bare(s) ==> ',' !in s
  {
  }

  lemma ItemsSame(values: seq<string>)
    ensures Map(Item, values) == values <==> forall v <- values :: Item(v) == v
  {
    hide Item;
    if Map(Item, values) == values {
      forall v <- values ensures Item(v) == v {
        var i :| 0 <= i < |values| && values[i] == v;
        assert Map(Item, values)[i] == values[i];
      }
    }
  }

  lemma EmptyText(values: seq<string>)
    requires values != []
    ensures Join(values, ",") == "" <==> values == [""]
  {
    if |values| > 1 { assert Join(values, ",")[|values[0]|] == ','; }
  }

  /** So "a,b" stands for the two elements a and b. */
  lemma CommaSeparated()
    ensures ParseList("a,b") == ["a", "b"]
  {
    BareRoundTripExactly(["a", "b"]);
    assert Join(["a", "b"], ",") == "a,b";
  }
}
