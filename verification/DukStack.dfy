/** Calls into a driver script: the value stack of the engine is a resource that every call must give back. */
module DukStack {
  import opened Common

  /** An object of the script with its properties. */
  datatype Value = Value(props: map<string, Value>)

  /** A stack entry: an object reached from the global one by a path of properties, or a plain value. */
  datatype Item = Ref(path: seq<string>) | Undefined | Text(text: string) | Decoded(text: string) | Result(text: string)

  /** What a called script function does: its text is the result or the error, which may have no JSON form, and it may
      change the objects. */
  datatype Script = Script(succeeds: bool, encodable: bool, text: string, after: Value)

  /** `Aborted`: the process ends inside the script engine. */
  datatype Reply =
    | Returned(text: string) | Failed(text: string) | BadName | NoPeripheral(name: string) | NoCommand | NoFunction
    | Aborted

  function Find(v: Value, path: seq<string>): Option<Value> {
    if path == [] then Some(v)
    else if path[0] in v.props then Find(v.props[path[0]], path[1..])
    else None
  }

  lemma {:induction false} FindNext(v: Value, path: seq<string>, name: string)
    ensures Find(v, path + [name]) ==
            if Find(v, path).Some? && name in Find(v, path).value.props
            then Some(Find(v, path).value.props[name]) else None
    decreases |path|
  {
    if path == [] {
      assert [name][1..] == [];
    } else {
      assert (path + [name])[1..] == path[1..] + [name];
      if path[0] in v.props {
        FindNext(v.props[path[0]], path[1..], name);
      }
    }
  }

  // ---------------------------------------------------------------- names

  ghost function Join(tokens: seq<string>): string
    requires tokens != []
  {
    if |tokens| == 1 then tokens[0] else Join(tokens[..|tokens| - 1]) + "." + tokens[|tokens| - 1]
  }

  /** No part holds a delimiter. */
  ghost predicate Parts(tokens: seq<string>) {
    forall i :: 0 <= i < |tokens| ==> '.' !in tokens[i]
  }

  lemma JoinNext(tokens: seq<string>, t: string)
    requires tokens != []
    ensures Join(tokens + [t]) == Join(tokens) + "." + t
  {
    assert (tokens + [t])[..|tokens|] == tokens;
  }

  /** The parts found so far and the dot behind them make up the string before `start`. */
  ghost predicate Consumed(tokens: seq<string>, s: string, start: nat)
    requires start <= |s|
  {
    if tokens == [] then start == 0 else Join(tokens) + "." == s[..start]
  }

  lemma PartFound(tokens: seq<string>, s: string, start: nat, needle: nat)
    requires start <= needle <= |s| && Consumed(tokens, s, start)
    ensures Join(tokens + [s[start..needle]]) == s[..needle]
  {
    if tokens == [] {
      assert tokens + [s[start..needle]] == [s[..needle]];
    } else {
      JoinNext(tokens, s[start..needle]);
      assert s[..start] + s[start..needle] == s[..needle];
    }
  }

  /** Splits at every dot; the parts put together again are the string. */
  method Split(s: string) returns (tokens: seq<string>)
    ensures tokens != [] && Parts(tokens) && Join(tokens) == s
  {
    tokens := [];
    var start := 0;
    var needle := FindDot(s, start);
    while needle < |s|
      invariant 0 <= start <= needle <= |s| && '.' !in s[start..needle] && (needle < |s| ==> s[needle] == '.')
      invariant Parts(tokens) && Consumed(tokens, s, start)
      decreases |s| - start
    {
      PartFound(tokens, s, start, needle);
      assert s[..needle] + "." == s[..needle + 1];
      tokens := tokens + [s[start..needle]];
      start := needle + 1;
      needle := FindDot(s, start);
    }
    PartFound(tokens, s, start, needle);
    assert s[..needle] == s && s[start..] == s[start..needle];
    tokens := tokens + [s[start..]];
  }

  /** The first dot from `start` on, or the length. */
  method FindDot(s: string, start: nat) returns (needle: nat)
    requires start <= |s|
    ensures start <= needle <= |s| && '.' !in s[start..needle] && (needle < |s| ==> s[needle] == '.')
  {
    needle := start;
    while needle < |s| && s[needle] != '.'
      invariant start <= needle <= |s| && '.' !in s[start..needle]
    {
      needle := needle + 1;
    }
  }

  /** The last dot, or the length. */
  method FindLastDot(s: string) returns (pos: nat)
    ensures pos <= |s| && (pos == |s| <==> '.' !in s)
    ensures pos < |s| ==> s[pos] == '.' && '.' !in s[pos + 1..]
  {
    pos := |s|;
    while pos > 0 && s[pos - 1] != '.'
      invariant pos <= |s| && '.' !in s[pos..]
    {
      pos := pos - 1;
    }
    if pos == 0 {
      assert s[0..] == s;
      return |s|;
    }
    pos := pos - 1;
    assert s[pos] in s;
  }

  lemma {:induction false} JoinDots(tokens: seq<string>)
    requires tokens != [] && Parts(tokens)
    ensures '.' in Join(tokens) <==> |tokens| > 1
  {
  }

  /** There is only one way to put a string together from parts. */
  lemma {:induction false} SplitUnique(a: seq<string>, b: seq<string>)
    requires a != [] && b != [] && Parts(a) && Parts(b) && Join(a) == Join(b)
    ensures a == b
    decreases |a|
  {
    var m, n := |a| - 1, |b| - 1;
    JoinDots(a);
    JoinDots(b);
    if m > 0 {
      LastPart(Join(a[..m]), a[m], Join(b[..n]), b[n]);
      SplitUnique(a[..m], b[..n]);
      assert a == a[..m] + [a[m]] && b == b[..n] + [b[n]];
    }
  }

  lemma LastPart(x: string, y: string, u: string, v: string)
    requires x + "." + y == u + "." + v && '.' !in y && '.' !in v
    ensures x == u && y == v
  {
    var s := x + "." + y;
    assert s[|x|] == '.' && s[|u|] == '.';
    assert s[|x| + 1..] == y && s[|u| + 1..] == v;
    forall i | |x| < i < |s| ensures s[i] != '.' {
      assert s[i] == y[i - |x| - 1];
    }
    forall i | |u| < i < |s| ensures s[i] != '.' {
      assert s[i] == v[i - |u| - 1];
    }
    assert s[..|x|] == x && s[..|u|] == u;
  }

  predicate EndsWith(s: string, suffix: string) {
    |s| >= |suffix| && s[|s| - |suffix|..] == suffix
  }

  /** Requests and responses are halves of a command, whose name they extend. */
  predicate IsHalf(member: string) {
    EndsWith(member, "_req") || EndsWith(member, "_rsp")
  }

  /** A half of a command is a stem with one of the two endings. */
  lemma HalfIff(member: string)
    ensures IsHalf(member) <==> exists stem: string :: member == stem + "_req" || member == stem + "_rsp"
    ensures forall stem: string :: member == stem + "_req" || member == stem + "_rsp" ==>
              |member| >= 4 && member[..|member| - 4] == stem
  {
    if IsHalf(member) {
      var stem := member[..|member| - 4];
      assert member == stem + "_req" || member == stem + "_rsp";
    }
    forall stem: string | member == stem + "_req" || member == stem + "_rsp"
      ensures |member| >= 4 && member[..|member| - 4] == stem && IsHalf(member)
    {
      assert member[|member| - 4..] == "_req" || member[|member| - 4..] == "_rsp";
    }
  }

  // ---------------------------------------------------------------- what a call answers

  /** The first `n` parts of a namespace lead to an object. */
  ghost predicate Leads(v: Value, ns: seq<string>, n: nat)
    requires n <= |ns|
  {
    Find(v, ns[..n]).Some?
  }

  /** The first part of a namespace that leads nowhere, from part `n` on. */
  ghost function FirstMissing(v: Value, ns: seq<string>, n: nat): nat
    requires n <= |ns|
    decreases |ns| - n
  {
    if n == |ns| || !Leads(v, ns, n + 1) then n else FirstMissing(v, ns, n + 1)
  }

  /** What keeps `member` of namespace `ns` from being called, if anything does. */
  ghost function Obstacle(global: Value, ns: seq<string>, member: string): Option<Reply> {
    var missing := FirstMissing(global, ns, 0);
    if missing < |ns| then Some(NoPeripheral(ns[missing]))
    else if IsHalf(member) && Find(global, ns + [member[..|member| - 4]]).None? then Some(NoCommand)
    else if Find(global, ns + [member]).None? then Some(NoFunction)
    else None
  }

  /** The answer to a call that reaches its function. */
  function Outcome(json: bool, script: Script): Reply {
    if !json || !script.encodable then Aborted
    else if script.succeeds then Returned(script.text)
    else Failed(script.text)
  }

  /** Part `n` is the first missing one when all before it lead on and it does not. */
  lemma {:induction false} FirstMissingIs(v: Value, ns: seq<string>, from: nat, n: nat)
    requires from <= n <= |ns|
    requires forall i :: from < i <= n ==> Leads(v, ns, i)
    requires n < |ns| ==> !Leads(v, ns, n + 1)
    ensures FirstMissing(v, ns, from) == n
    decreases n - from
  {
    if from < n {
      FirstMissingIs(v, ns, from + 1, n);
    }
  }

  /** A longer path exists only if every shorter one does. */
  lemma {:induction false} LeadsBefore(v: Value, ns: seq<string>, m: nat, n: nat)
    requires m <= n <= |ns| && Leads(v, ns, n)
    ensures Leads(v, ns, m)
    decreases n
  {
    if m < n {
      assert ns[..n] == ns[..n - 1] + [ns[n - 1]];
      FindNext(v, ns[..n - 1], ns[n - 1]);
      LeadsBefore(v, ns, m, n - 1);
    }
  }

  lemma FirstMissingStops(v: Value, ns: seq<string>, n: nat)
    requires n < |ns| && Leads(v, ns, n) && !Leads(v, ns, n + 1)
    ensures FirstMissing(v, ns, 0) == n
  {
    forall i | 0 < i <= n ensures Leads(v, ns, i) {
      LeadsBefore(v, ns, i, n);
    }
    FirstMissingIs(v, ns, 0, n);
  }

  lemma {:induction false} FirstMissingMeaning(v: Value, ns: seq<string>, n: nat)
    requires n <= |ns| && Leads(v, ns, n)
    ensures n <= FirstMissing(v, ns, n) <= |ns| && Leads(v, ns, FirstMissing(v, ns, n))
    ensures FirstMissing(v, ns, n) < |ns| ==> !Leads(v, ns, FirstMissing(v, ns, n) + 1)
    decreases |ns| - n
  {
    if n < |ns| && Leads(v, ns, n + 1) {
      FirstMissingMeaning(v, ns, n + 1);
    }
  }

  /** A part of the namespace is reported exactly when it is the first that leads nowhere; a command exactly when the
      namespace exists and the function is half of a command that does not; a function exactly when all that exists but
      the function itself; and nothing stands in the way exactly when the function can be found, and its command. */
  lemma ObstacleIff(global: Value, ns: seq<string>, member: string)
    ensures forall part :: Obstacle(global, ns, member) == Some(NoPeripheral(part)) <==>
              exists n: nat :: n < |ns| && ns[n] == part && Leads(global, ns, n) && !Leads(global, ns, n + 1)
    ensures Obstacle(global, ns, member) == Some(NoCommand) <==>
              Find(global, ns).Some? && HalfMissing(global, ns, member)
    ensures Obstacle(global, ns, member) == Some(NoFunction) <==>
              Find(global, ns).Some? && !HalfMissing(global, ns, member) && Find(global, ns + [member]).None?
    ensures Obstacle(global, ns, member) == None <==>
              !HalfMissing(global, ns, member) && Find(global, ns + [member]).Some?
  {
    var m := FirstMissing(global, ns, 0);
    assert ns[..0] == [] && ns[..|ns|] == ns;
    FirstMissingMeaning(global, ns, 0);
    forall n: nat | n < |ns| && Leads(global, ns, n) && !Leads(global, ns, n + 1) ensures n == m {
      FirstMissingStops(global, ns, n);
    }
    if Find(global, ns).Some? && m < |ns| {
      LeadsBefore(global, ns, m + 1, |ns|);
    }
    if Find(global, ns + [member]).Some? {
      FindNext(global, ns, member);
    }
  }

  /** The function is half of a command that does not exist. */
  ghost predicate HalfMissing(global: Value, ns: seq<string>, member: string) {
    (exists stem: string :: (member == stem + "_req" || member == stem + "_rsp") && Find(global, ns + [stem]).None?)
  }

  // ---------------------------------------------------------------- the context

  class Context {
    var stack: seq<Item>
    var relativeStack: nat
    var global: Value

    /** Between calls the global object is on top. */
    ghost predicate Ready()
      reads this
    {
      stack != [] && stack[|stack| - 1] == Ref([])
    }

    constructor (global: Value)
      ensures Ready() && stack == [Ref([])] && this.global == global
    {
      stack, relativeStack, this.global := [Ref([])], 0, global;
    }

    /** Runs a script for its effect; its value is dropped again. A failing script leaves its error on the stack of a
        context that is given up. */
    method LoadCode(script: Script) returns (ok: bool)
      modifies this
      ensures ok == script.succeeds && global == script.after
      ensures stack == old(stack) + if ok then [] else [Result(script.text)]
    {
      Push(Text(script.text));
      ok := script.succeeds;
      stack := stack[..|stack| - 1] + [Result(script.text)];
      global := script.after;
      if ok {
        PopN(1);
      }
    }

    method Push(item: Item)
      modifies this`stack
      ensures stack == old(stack) + [item]
    {
      stack := stack + [item];
    }

    method PopN(n: nat)
      requires n <= |stack|
      modifies this`stack
      ensures stack == old(stack)[..|old(stack)| - n]
    {
      stack := stack[..|stack| - n];
    }

    /** Pushes a property of the object on top, or undefined when it has none of that name. */
    method GetPropString(name: string) returns (exists_: bool)
      requires stack != [] && stack[|stack| - 1].Ref? && Find(global, stack[|stack| - 1].path).Some?
      modifies this`stack
      ensures var path := old(stack)[|old(stack)| - 1].path + [name];
        && exists_ == Find(global, path).Some?
        && stack == old(stack) + [if exists_ then Ref(path) else Undefined]
    {
      var path := stack[|stack| - 1].path;
      FindNext(global, path, name);
      exists_ := name in Find(global, path).value.props;
      Push(if exists_ then Ref(path + [name]) else Undefined);
    }

    /** The stack holds `base`, and on it `relativeStack` objects down to the one at `path`. */
    ghost predicate Descended(base: seq<Item>, path: seq<string>)
      reads this
    {
      && |stack| == |base| + relativeStack && stack[..|base|] == base
      && stack != [] && stack[|stack| - 1] == Ref(path) && Find(global, path).Some?
    }

    /** Descends into a namespace, and comes back from it when a part is missing. */
    method Descend(tokens: seq<string>) returns (missing: nat)
      requires Ready()
      modifies this`stack, this`relativeStack
      ensures missing == FirstMissing(global, tokens, 0)
      ensures if missing < |tokens| then stack == old(stack)
              else relativeStack == |tokens| && Descended(old(stack), tokens)
    {
      relativeStack := 0;
      missing := 0;
      assert tokens[..0] == [];
      while missing < |tokens|
        invariant missing <= |tokens| && relativeStack == missing && Descended(old(stack), tokens[..missing])
        invariant forall j :: 0 < j <= missing ==> Leads(global, tokens, j)
      {
        relativeStack := relativeStack + 1;
        assert tokens[..missing + 1] == tokens[..missing] + [tokens[missing]];
        var found := GetPropString(tokens[missing]);
        assert found <==> Leads(global, tokens, missing + 1);
        if !found {
          FirstMissingIs(global, tokens, 0, missing);
          PopN(relativeStack);
          return;
        }
        missing := missing + 1;
      }
      FirstMissingIs(global, tokens, 0, |tokens|);
      assert tokens[..|tokens|] == tokens;
    }

    /** Tests for a property of the object on top, and comes back to `base` when it is missing. */
    method Enter(path: seq<string>, name: string, ghost base: seq<Item>) returns (found: bool)
      requires Descended(base, path)
      modifies this`stack, this`relativeStack
      ensures found == Find(global, path + [name]).Some?
      ensures if found then Descended(base, path + [name]) && relativeStack == old(relativeStack) + 1 else stack == base
      ensures found ==> stack[..|stack| - 1] == old(stack)
    {
      relativeStack := relativeStack + 1;
      found := GetPropString(name);
      if !found {
        PopN(relativeStack);
      }
    }

    /** Leaves namespace objects and function on the stack, counted; every failure clears them again. */
    method FindNamespaceObject(tokens: seq<string>, member: string) returns (r: Option<Reply>)
      requires Ready()
      modifies this`stack, this`relativeStack
      ensures r == Obstacle(global, tokens, member)
      ensures if r.None? then relativeStack > 0 && Descended(old(stack), tokens + [member]) else stack == old(stack)
    {
      var missing := Descend(tokens);
      if missing < |tokens| {
        return Some(NoPeripheral(tokens[missing]));
      }
      if IsHalf(member) {
        var half := Enter(tokens, member[..|member| - 4], old(stack));
        if !half {
          return Some(NoCommand);
        }
        PopN(1);
        relativeStack := relativeStack - 1;
      }
      var found := Enter(tokens, member, old(stack));
      r := if found then None else Some(NoFunction);
    }

    /** Calls the function below its one argument; both give way to the result or the error. */
    method ProtectedCall(script: Script) returns (called: seq<string>)
      requires |stack| >= 2 && stack[|stack| - 2].Ref?
      modifies this`stack, this`global
      ensures called == old(stack)[|old(stack)| - 2].path && global == script.after
      ensures stack == old(stack)[..|old(stack)| - 2] + [Result(script.text)]
    {
      called := stack[|stack| - 2].path;
      stack := stack[..|stack| - 2] + [Result(script.text)];
      global := script.after;
    }

    /** Calls the function on top of the stack with its parameters and gives back all counted entries. Parameters that
        are not JSON, and a result without a JSON form, end the process. */
    method Invoke(params: string, json: bool, script: Script, path: seq<string>, ghost base: seq<Item>)
      returns (r: Reply, called: Option<seq<string>>)
      requires Descended(base, path) && relativeStack > 0
      modifies this
      ensures r == Outcome(json, script)
      ensures !r.Aborted? ==> stack == base
      ensures called == (if json then Some(path) else None) && global == if json then script.after else old(global)
    {
      Push(Text(params));
      if !json {
        return Aborted, None;
      }
      stack := stack[..|stack| - 1] + [Decoded(params)];
      var reached := ProtectedCall(script);
      called := Some(reached);
      if !script.succeeds {
        Push(stack[|stack| - 1]);
        PopN(1);
      }
      if !script.encodable {
        return Aborted, called;
      }
      stack := stack[..|stack| - 1] + [Text(script.text)];
      PopN(relativeStack);
      r := if script.succeeds then Returned(script.text) else Failed(script.text);
    }

    /** On every path that the process survives, success, missing namespace, missing function or script error, the stack
        comes back as it was, and the function called is the one that the whole name leads to. */
    method CallFunction(name: string, params: string, json: bool, script: Script)
      returns (r: Reply, called: Option<seq<string>>, ghost parts: seq<string>)
      requires Ready()
      modifies this
      ensures !r.Aborted? ==> stack == old(stack)
      ensures parts != [] && Parts(parts) && Join(parts) == name
      ensures var n := |parts| - 1;
        var obstacle := if n == 0 then Some(BadName) else Obstacle(old(global), parts[..n], parts[n]);
        && r == (if obstacle.Some? then obstacle.value else Outcome(json, script))
        && called == (if obstacle.None? && json then Some(parts) else None)
        && global == if obstacle.None? && json then script.after else old(global)
      ensures called.Some? ==>
        && (forall t :: r == Returned(t) <==> t == script.text && script.encodable && script.succeeds)
        && (forall t :: r == Failed(t) <==> t == script.text && script.encodable && !script.succeeds)
        && (r == Aborted <==> !script.encodable)
      ensures r.Returned? || r.Failed? ==> called.Some?
    {
      called := None;
      parts := [name];
      var pos := FindLastDot(name);
      if pos == |name| {
        return BadName, None, parts;
      }
      var ns, member := name[..pos], name[pos + 1..];
      var tokens := Split(ns);
      JoinNext(tokens, member);
      assert name == ns + "." + member;
      parts := tokens + [member];
      assert parts[..|parts| - 1] == tokens;
      var obstacle := FindNamespaceObject(tokens, member);
      if obstacle.Some? {
        return obstacle.value, None, parts;
      }
      r, called := Invoke(params, json, script, tokens + [member], old(stack));
    }
  }
}
