/**
 * strman.TemplateBulider: a template whose `<=NAME>` markers are registered
 * when it is built, bound to values with add, and substituted by execute.
 */
module Templates {
  import opened Wrappers
  import opened JString

  // ------------------------------------------------------- the marker scan

  /** A line terminator of java.util.regex, which `.` does not match. */
  predicate IsLineTerminator(c: char) {
    c == '\n' || c == '\r' || c == '\U{0085}' || c == '\U{2028}' || c == '\U{2029}'
  }

  /** `e` is where the lazy `(.*?)\>` started at `j` stops: the first '>' with no line terminator before it. */
  ghost predicate Closes(t: string, j: nat, e: nat) {
    j <= e < |t| && t[e] == '>' && forall i | j <= i < e :: t[i] != '>' && !IsLineTerminator(t[i])
  }

  /** The '>' that closes a marker whose name starts at `j`, if there is one. */
  function CloseFrom(t: string, j: nat): (r: Option<nat>)
    requires j <= |t|
    ensures r.Some? ==> Closes(t, j, r.value)
    ensures r.None? ==> forall e | j <= e < |t| :: !Closes(t, j, e)
    decreases |t| - j
  {
    if j == |t| then None
    else if t[j] == '>' then Some(j)
    else if IsLineTerminator(t[j]) then None
    else
      ClosesLater(t, j);
      CloseFrom(t, j + 1)
  }

  /** Past a char that is neither '>' nor a line terminator, the marker closes where it closes from the next char. */
  lemma ClosesLater(t: string, j: nat)
    requires j < |t| && t[j] != '>' && !IsLineTerminator(t[j])
    ensures forall e | j <= e < |t| :: Closes(t, j, e) <==> Closes(t, j + 1, e)
  {
  }

  /** The index of the '>' of a marker `<=NAME>` that starts at `k`, if one does. */
  function MarkerAt(t: string, k: nat): Option<nat>
    requires k <= |t|
  {
    if k + 2 <= |t| && t[k] == '<' && t[k + 1] == '=' then CloseFrom(t, k + 2) else None
  }

  /** Matcher.find from `k`: the start and the '>' of the leftmost marker at or after `k`. */
  function NextMarker(t: string, k: nat): (r: Option<(nat, nat)>)
    requires k <= |t|
    ensures r.Some? ==> k <= r.value.0 && r.value.0 + 2 <= r.value.1 < |t| && MarkerAt(t, r.value.0) == Some(r.value.1)
    ensures r.Some? ==> forall s | k <= s < r.value.0 :: MarkerAt(t, s).None?
    ensures r.None? ==> forall s | k <= s < |t| :: MarkerAt(t, s).None?
    decreases |t| - k
  {
    if k == |t| then None
    else match MarkerAt(t, k)
      case Some(e) => Some((k, e))
      case None => NextMarker(t, k + 1)
  }

  /** What the lazy `(.*?)` can capture: no '>' and no line terminator. */
  predicate NameOk(n: string) {
    forall i | 0 <= i < |n| :: n[i] != '>' && !IsLineTerminator(n[i])
  }

  /** The names of the markers found scanning from `k`, left to right, without overlap. */
  function Names(t: string, k: nat): (r: seq<string>)
    requires k <= |t|
    ensures forall n | n in r :: NameOk(n)
    decreases |t| - k
  {
    match NextMarker(t, k)
    case None => []
    case Some((s, e)) =>
      assert Closes(t, s + 2, e);
      [t[s + 2..e]] + Names(t, e + 1)
  }

  /** The marker text of a name. */
  function Marker(name: string): (r: string)
    ensures |r| == |name| + 3 && r[0] == '<'
  {
    "<=" + name + ">"
  }

  /** Every registered name's marker occurs in the template. */
  lemma {:induction false} NamesOccur(t: string, k: nat)
    requires k <= |t|
    ensures forall n | n in Names(t, k) :: exists p | 0 <= p :: OccursAt(t, Marker(n), p)
    decreases |t| - k
  {
    match NextMarker(t, k)
    case None =>
    case Some((s, e)) =>
      NamesOccur(t, e + 1);
      MarkerOccurs(t, s, e);
      NamesStep(t, k, s, e, e + 1);
  }

  /** A marker found at `s` spells out its name. */
  lemma MarkerOccurs(t: string, s: nat, e: nat)
    requires s <= |t| && MarkerAt(t, s) == Some(e)
    ensures s + 2 <= e < |t| && OccursAt(t, Marker(t[s + 2..e]), s)
  {
    assert Closes(t, s + 2, e);
    assert t[s..e + 1] == Marker(t[s + 2..e]);
  }

  /** One step of the scan: the name of the marker found, then the names after it. */
  lemma NamesStep(t: string, k: nat, s: nat, e: nat, next: nat)
    requires k <= |t| && NextMarker(t, k) == Some((s, e)) && next == e + 1
    ensures s + 2 <= e < next <= |t| && Names(t, k) == [t[s + 2..e]] + Names(t, next)
  {
  }

  predicate Distinct(xs: seq<string>) {
    forall i, j | 0 <= i < j < |xs| :: xs[i] != xs[j]
  }

  function DuplicateMessage(key: string): string {
    "Duplicate value definition \"" + key + "\""
  }

  function NoVariableMessage(key: string): string {
    "No veriable definitation \"" + key + "\""
  }

  /** The map every name of `names` to no value. */
  function Unbound(names: seq<string>): (r: map<string, Option<string>>)
    ensures r.Keys == set n | n in names
    ensures forall n | n in r :: r[n] == None
  {
    map n | n in names :: None
  }

  /** Registering one more name with no value. */
  lemma UnboundAppend(found: seq<string>, key: string)
    ensures Unbound(found + [key]) == Unbound(found)[key := None]
  {
    assert forall n :: n in found + [key] <==> n in found || n == key;
  }

  /** A name already registered makes the whole list repeat itself, at that position first. */
  lemma FirstDuplicate(names: seq<string>, found: seq<string>, key: string, rest: seq<string>)
    requires names == found + ([key] + rest) && Distinct(found) && key in found
    ensures !Distinct(names)
    ensures var j := |found|; 0 < j < |names| && Distinct(names[..j]) && names[j] in names[..j] && names[j] == key
  {
    var j := |found|;
    assert names[..j] == found && names[j] == key;
    var i :| 0 <= i < j && found[i] == key;
    assert names[i] == key;
  }

  /**
   * buildProperties: every name registered with no value, or the first name
   * that occurs a second time reported as a duplicate.
   */
  method BuildProperties(template: string) returns (r: Result<map<string, Option<string>>>)
    ensures r.Success? <==> Distinct(Names(template, 0))
    ensures r.Success? ==> r.value == Unbound(Names(template, 0))
    ensures r.Failure? ==> var names := Names(template, 0);
      exists j | 0 < j < |names| :: Distinct(names[..j]) && names[j] in names[..j] && r.error == Runtime(DuplicateMessage(names[j]))
  {
    var valueMap: map<string, Option<string>> := map[];
    var k := 0;
    ghost var names := Names(template, 0);
    ghost var found: seq<string> := [];
    ghost var todo := names;
    var m := NextMarker(template, k);
    while m.Some?
      invariant k <= |template|
      invariant m == NextMarker(template, k)
      invariant todo == Names(template, k)
      invariant names == found + todo
      invariant Distinct(found)
      invariant valueMap == Unbound(found)
      decreases |template| - k
    {
      var start, close := m.value.0, m.value.1;
      var next := close + 1;
      NamesStep(template, k, start, close, next);
      var key := template[start + 2..close];
      ghost var rest := Names(template, next);
      assert todo == [key] + rest;
      if key in valueMap {
        FirstDuplicate(names, found, key, rest);
        return Failure(Runtime(DuplicateMessage(key)));
      }
      UnboundAppend(found, key);
      valueMap := valueMap[key := None];
      DistinctAppend(found, key);
      AppendShift(names, found, key, rest);
      found := found + [key];
      todo := rest;
      k := next;
      m := NextMarker(template, k);
    }
    assert todo == [];
    assert found + [] == found;
    return Success(valueMap);
  }

  /** Moving the scanned name from the rest to the registered ones. */
  lemma AppendShift(names: seq<string>, found: seq<string>, key: string, rest: seq<string>)
    requires names == found + ([key] + rest)
    ensures names == (found + [key]) + rest
  {
  }

  /** A new name keeps a list of distinct names distinct. */
  lemma DistinctAppend(found: seq<string>, key: string)
    requires Distinct(found) && key !in found
    ensures Distinct(found + [key])
  {
  }

  // -------------------------------------------------------- substitution

  /** What execute computes: the markers of the bound names, in `names` order, replaced by their values. */
  function Substituted(t: string, names: seq<string>, properties: map<string, Option<string>>): string
    requires forall n | n in names :: n in properties
    decreases |names|
  {
    if names == [] then t
    else
      var n := names[|names| - 1];
      var prev := Substituted(t, names[..|names| - 1], properties);
      match properties[n]
      case None => prev
      case Some(v) => Replace(prev, Marker(n), v)
  }

  /** With no name bound, execute gives back the template: unbound markers stay as they are. */
  lemma {:induction false} SubstitutedNothingBound(t: string, names: seq<string>, properties: map<string, Option<string>>)
    requires forall n | n in names :: n in properties && properties[n] == None
    ensures Substituted(t, names, properties) == t
    decreases |names|
  {
    if names != [] {
      var init := names[..|names| - 1];
      assert forall n | n in init :: n in names;
      SubstitutedNothingBound(t, init, properties);
    }
  }

  /** With only `key` bound, execute replaces exactly the occurrences of its marker. */
  lemma {:induction false} SubstitutedOneBound(t: string, names: seq<string>, properties: map<string, Option<string>>, key: string, v: string)
    requires forall n | n in names :: n in properties
    requires Distinct(names) && key in names && properties[key] == Some(v)
    requires forall n | n in names && n != key :: properties[n] == None
    ensures Substituted(t, names, properties) == Replace(t, Marker(key), v)
    decreases |names|
  {
    var init, last := names[..|names| - 1], names[|names| - 1];
    assert forall n | n in init :: n in names;
    if last == key {
      assert key !in init by {
        forall i | 0 <= i < |init|
          ensures init[i] != key
        {
          assert init[i] == names[i];
        }
      }
      SubstitutedNothingBound(t, init, properties);
    } else {
      assert key in init by {
        var i :| 0 <= i < |names| && names[i] == key;
        assert i < |names| - 1 && init[i] == key;
      }
      assert Distinct(init) by {
        forall i, j | 0 <= i < j < |init|
          ensures init[i] != init[j]
        {
          assert init[i] == names[i] && init[j] == names[j];
        }
      }
      SubstitutedOneBound(t, init, properties, key, v);
    }
  }

  /** A template holding one marker, with no other '<' around it: execute splices the value in. */
  lemma MarkerSpliced(pre: string, key: string, post: string, v: string)
    requires forall i | 0 <= i < |pre| :: pre[i] != '<'
    requires forall i | 0 <= i < |post| :: post[i] != '<'
    ensures Replace(pre + Marker(key) + post, Marker(key), v) == pre + v + post
  {
    var m := Marker(key);
    var t := pre + m + post;
    MarkerFirstAt(pre, m, post);
    ReplaceAtFirst(t, m, v, |pre|);
    NoMarkerAfter(post, m);
    ReplaceWithoutTarget(post, m, v);
  }

  /** In pre + m + post with no '<' in pre, the first copy of the marker m sits right after pre. */
  lemma MarkerFirstAt(pre: string, m: string, post: string)
    requires |m| > 0 && m[0] == '<'
    requires forall i | 0 <= i < |pre| :: pre[i] != '<'
    ensures OccursAt(pre + m + post, m, |pre|)
    ensures forall p | 0 <= p < |pre| :: !OccursAt(pre + m + post, m, p)
    ensures (pre + m + post)[..|pre|] == pre && (pre + m + post)[|pre| + |m|..] == post
  {
    var t := pre + m + post;
    forall p | 0 <= p < |pre|
      ensures !OccursAt(t, m, p)
    {
      assert t[p] == pre[p];
    }
    assert t[|pre|..|pre| + |m|] == m;
  }

  /** Text with no '<' holds no marker. */
  lemma NoMarkerAfter(post: string, m: string)
    requires |m| > 0 && m[0] == '<'
    requires forall i | 0 <= i < |post| :: post[i] != '<'
    ensures forall p | 0 <= p :: !OccursAt(post, m, p)
  {
    forall p | 0 <= p
      ensures !OccursAt(post, m, p)
    {
      if p < |post| {
        assert post[p] != m[0];
      }
    }
  }

  // ---------------------------------------------------------- the class

  class TemplateBulider {
    const template: string
    /** The registered names in scan order: the order in which execute visits them. */
    const names: seq<string>
    var properties: map<string, Option<string>>

    /** The names are the template's markers, each once, and they are exactly the keys of the map. */
    ghost predicate Valid()
      reads this
    {
      && names == Names(template, 0)
      && Distinct(names)
      && properties.Keys == set n | n in names
    }

    /** The object the Java constructor leaves behind once buildProperties has returned. */
    constructor Registered(template: string, properties: map<string, Option<string>>)
      requires Distinct(Names(template, 0)) && properties == Unbound(Names(template, 0))
      ensures this.template == template && this.properties == properties && Valid()
    {
      this.template := template;
      this.names := Names(template, 0);
      this.properties := properties;
    }

    /** new TemplateBulider(template): every marker name registered with no value, or the duplicate error. */
    static method Create(template: string) returns (r: Result<TemplateBulider>)
      ensures r.Success? <==> Distinct(Names(template, 0))
      ensures r.Success? ==> fresh(r.value) && r.value.Valid() && r.value.template == template
      ensures r.Success? ==> r.value.properties == Unbound(Names(template, 0))
      ensures r.Failure? ==> var names := Names(template, 0);
        exists j | 0 < j < |names| :: Distinct(names[..j]) && names[j] in names[..j] && r.error == Runtime(DuplicateMessage(names[j]))
    {
      var properties := BuildProperties(template);
      if properties.Failure? {
        return Failure(properties.error);
      }
      var b := new TemplateBulider.Registered(template, properties.value);
      return Success(b);
    }

    /** add(key, value): a registered key is bound (a null value unbinds it); any other key is refused. */
    method Add(key: string, value: Option<string>) returns (r: Result<()>)
      requires Valid()
      modifies this
      ensures Valid() && properties.Keys == old(properties.Keys)
      ensures key !in old(properties) ==> r == Failure(Runtime(NoVariableMessage(key))) && properties == old(properties)
      ensures key in old(properties) ==> r == Success(()) && properties == old(properties)[key := value]
    {
      if key !in properties {
        return Failure(Runtime(NoVariableMessage(key)));
      }
      properties := properties[key := value];
      return Success(());
    }

    /** add(key, Number): the same as adding the number's decimal text. */
    method AddNumber(key: string, value: int) returns (r: Result<()>)
      requires Valid()
      modifies this
      ensures Valid() && properties.Keys == old(properties.Keys)
      ensures key !in old(properties) ==> r == Failure(Runtime(NoVariableMessage(key))) && properties == old(properties)
      ensures key in old(properties) ==> r == Success(()) && properties == old(properties)[key := Some(IntToString(value))]
    {
      r := Add(key, Some(IntToString(value)));
    }

    /** execute(): the template with the marker of every bound name replaced; nothing is changed. */
    method Execute() returns (result: string)
      requires Valid()
      ensures result == Substituted(template, names, properties)
    {
      result := template;
      for i := 0 to |names|
        invariant result == Substituted(template, names[..i], properties)
      {
        var key := names[i];
        assert names[..i + 1][..i] == names[..i];
        var value := properties[key];
        if value.None? {
          continue;
        }
        result := Replace(result, Marker(key), value.value);
      }
      assert names[..|names|] == names;
    }

    /** toString(): the template the object was built from, whatever add and execute did since. */
    function ToString(): (r: string)
      reads this
      ensures r == template
    {
      template
    }
  }
}
