/** Where the decoder gets to: runs of any length, and copies as one step. */
module RunsTo {
  import opened Tokens
  import opened BlockFields
  import opened Decoder

  ghost predicate Reaches(env: Env, s: State, t: State)
    requires StateOk(env, s)
  {
    exists n: nat :: Run(env, s, n) == t
  }

  lemma ReachSelf(env: Env, s: State)
    requires StateOk(env, s)
    ensures Reaches(env, s, s)
  {
    assert Run(env, s, 0) == s;
  }

  lemma ReachStep(env: Env, s: State)
    requires StateOk(env, s)
    ensures Reaches(env, s, Step(env, s)) && StateOk(env, Step(env, s))
  {
    hide Step;
    StepOk(env, s);
    assert Run(env, s, 0) == s;
    assert Run(env, s, 1) == Step(env, s);
  }

  lemma ReachTrans(env: Env, s: State, t: State, u: State)
    requires StateOk(env, s) && Reaches(env, s, t) && StateOk(env, t) && Reaches(env, t, u)
    ensures Reaches(env, s, u) && StateOk(env, u)
  {
    hide Run;
    var m: nat :| Run(env, s, m) == t;
    var n: nat :| Run(env, t, n) == u;
    RunPlus(env, s, m, n);
  }

  /** A copy of n bytes. */
  lemma {:induction false} RunCopy(env: Env, s: State, ll: seq<nat>, dl: seq<nat>, n: nat, dist: nat)
    requires StateOk(env, s) && s.mode == InBlock(ll, dl, Copying(n, dist)) && 1 <= dist <= env.w
    ensures var t := s.(mode := InBlock(ll, dl, Symbol), text := Copy(s.text, dist, n));
            StateOk(env, t) && Reaches(env, s, t)
    decreases n
  {
    hide Run;
    ReachStep(env, s);
    var t := Step(env, s);
    if n == 0 {
      assert s.text + [] == s.text;
    } else {
      assert t == s.(mode := InBlock(ll, dl, Copying(n - 1, dist)), text := s.text + [s.text[|s.text| - dist]]);
      RunCopy(env, t, ll, dl, n - 1, dist);
      ReachTrans(env, s, t, s.(mode := InBlock(ll, dl, Symbol), text := Copy(s.text, dist, n)));
    }
  }

  /** A step that reads extra bits. */
  lemma ExtraStep(env: Env, s: State, ll: seq<nat>, dl: seq<nat>, m: SymbolMode, m': SymbolMode, x: nat)
    requires StateOk(env, s) && s.mode == InBlock(ll, dl, m) && (m.LengthBits? || m.DistanceBits?)
    requires s.pos + Extra(m) <= |env.bits| && x == Peek(env.bits, s.pos, Extra(m))
    requires PlainStep(m, x, s.text, env.w) == (m', Extra(m), [])
    ensures var t := s.(mode := InBlock(ll, dl, m'), pos := s.pos + Extra(m)); StateOk(env, t) && Reaches(env, s, t)
  {
    hide Run, Peek;
    ReachStep(env, s);
    assert s.text + [] == s.text;
  }
}
