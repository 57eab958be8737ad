/** The values a startup command is expanded with: egg defaults, the owner's overrides where
    the egg allows them, and the panel's own variables. */
module EggVariables {
  import opened Options
  import opened StartupTemplate

  datatype Variable = Variable(env: string, value: string, editable: bool)

  type Values = map<string, string>

  /** The last declaration of a name, which is the one that counts. */
  function Declared(vars: seq<Variable>, env: string): (v: Option<Variable>)
    ensures v.Some? ==> v.value in vars && v.value.env == env
    ensures v.None? ==> forall w | w in vars :: w.env != env
  {
    if vars == [] then None
    else if vars[|vars| - 1].env == env then Some(vars[|vars| - 1])
    else Declared(vars[..|vars| - 1], env)
  }

  function Chosen(v: Variable, overrides: Values): string {
    if v.editable && v.env in overrides then overrides[v.env] else v.value
  }

  /** Exactly the declared names, each with its default or a permitted override. */
  ghost predicate Resolves(vars: seq<Variable>, overrides: Values, resolved: Values) {
    forall env :: if Declared(vars, env).Some? then env in resolved
        && resolved[env] == Chosen(Declared(vars, env).value, overrides)
                  else env !in resolved
  }

  lemma ResolvesOneMore(vars: seq<Variable>, v: Variable, overrides: Values, resolved: Values)
    requires Resolves(vars, overrides, resolved)
    ensures Resolves(vars + [v], overrides, resolved[v.env := Chosen(v, overrides)])
  {
  }

  method ResolveVariables(vars: seq<Variable>, overrides: Values) returns (resolved: Values)
    ensures Resolves(vars, overrides, resolved)
    ensures forall env | env in resolved :: exists v | v in vars :: v.env == env
    ensures forall k | 0 <= k < |vars| && LastOfItsName(vars, k) ::
              var v := vars[k];
              && v.env in resolved
              && resolved[v.env] == if v.editable && v.env in overrides then overrides[v.env] else v.value
  {
    resolved := map[];
    for k := 0 to |vars|
      invariant Resolves(vars[..k], overrides, resolved)
    {
      var v := vars[k];
      var value := v.value;
      if v.editable {
        if v.env in overrides { value := overrides[v.env]; }
      }
      ResolvesOneMore(vars[..k], v, overrides, resolved);
      assert vars[..k + 1] == vars[..k] + [v];
      resolved := resolved[v.env := value];
    }
    assert vars[..|vars|] == vars;
    forall k | 0 <= k < |vars| && LastOfItsName(vars, k) ensures Declared(vars, vars[k].env) == Some(vars[k]) {
      LastIsDeclared(vars, k);
    }
  }

  predicate LastOfItsName(vars: seq<Variable>, k: nat)
    requires k < |vars|
  {
    forall j | k < j < |vars| :: vars[j].env != vars[k].env
  }

  lemma {:induction false} LastIsDeclared(vars: seq<Variable>, k: nat)
    requires k < |vars| && LastOfItsName(vars, k)
    ensures Declared(vars, vars[k].env) == Some(vars[k])
  {
    if k < |vars| - 1 { LastIsDeclared(vars[..|vars| - 1], k); }
  }

  /** `panel` holds the SERVER_ variables, which overwrite; MEMORY only fills a gap. */
  function WithPanel(resolved: Values, memory: string, panel: Values): Values {
    (if "MEMORY" in resolved then resolved else resolved["MEMORY" := memory]) + panel
  }

  /** What a name expands to: the panel's value if it has one, else what the last declaration
      allows, else, for MEMORY alone, the server's memory; any other name has no value. */
  lemma ValueExactly(vars: seq<Variable>, o: Values, r: Values, memory: string, panel: Values, env: string)
    requires Resolves(vars, o, r)
    ensures var all := WithPanel(r, memory, panel);
            && (env in all <==> env in panel || env == "MEMORY" || exists v | v in vars :: v.env == env)
            && (env in panel ==> all[env] == panel[env])
            && (env == "MEMORY" && env !in panel && (forall v | v in vars :: v.env != env) ==> all[env] == memory)
    ensures forall k | 0 <= k < |vars| && LastOfItsName(vars, k) && vars[k].env == env && env !in panel ::
              WithPanel(r, memory, panel)[env] == if vars[k].editable && env in o then o[env] else vars[k].value
  {
    forall k | 0 <= k < |vars| && LastOfItsName(vars, k) && vars[k].env == env && env !in panel
      ensures Declared(vars, env) == Some(vars[k])
    {
      LastIsDeclared(vars, k);
    }
  }

  /** Names whose value an owner may choose: the declaration that counts is editable, and the
      panel does not overwrite the name. */
  predicate Editable(vars: seq<Variable>, panel: Values, env: string) {
    Declared(vars, env).Some? && Declared(vars, env).value.editable && env !in panel
  }

  predicate SameWhereEditable(vars: seq<Variable>, panel: Values, o: Values, p: Values) {
    forall v | v in vars && Editable(vars, panel, v.env) ::
      (v.env in o) == (v.env in p) && (v.env in o ==> o[v.env] == p[v.env])
  }

  /** Owners reach the startup command through editable variables only: overrides that agree
      on those expand every template alike. */
  lemma OnlyEditableMatters(vars: seq<Variable>, memory: string, panel: Values, o: Values, p: Values, r: Values,
      q: Values, t: string)
    requires Resolves(vars, o, r) && Resolves(vars, p, q) && SameWhereEditable(vars, panel, o, p)
    ensures Eval(Parse(t), WithPanel(r, memory, panel)) == Eval(Parse(t), WithPanel(q, memory, panel))
  {
    hide Eval, Parse;
    forall env ensures env in WithPanel(r, memory, panel) <==> env in WithPanel(q, memory, panel) {
      SameValue(vars, panel, o, p, r, q, env);
    }
    forall env | env in WithPanel(r, memory, panel)
      ensures WithPanel(r, memory, panel)[env] == WithPanel(q, memory, panel)[env]
    {
      SameValue(vars, panel, o, p, r, q, env);
    }
    assert WithPanel(r, memory, panel) == WithPanel(q, memory, panel);
  }

  lemma SameValue(vars: seq<Variable>, panel: Values, o: Values, p: Values, r: Values, q: Values, env: string)
    requires Resolves(vars, o, r) && Resolves(vars, p, q) && SameWhereEditable(vars, panel, o, p)
    ensures env in r <==> env in q
    ensures env in r && env !in panel ==> r[env] == q[env]
  {
  }
}
