/**
 The x86 encoding engine of DynASM: what is complained about between the passes.
 */
module DynasmStatus {
  import opened DynasmTrace
  import opened DynasmPass1

  /** No local label is awaited. */
  ghost predicate NoLocal(tr: Trace) {
    forall n :: 1 <= n <= 9 ==> Pending(tr, LG(n)) == []
  }

  /** Label `n` is the first local one that is awaited. */
  ghost predicate FirstLocal(tr: Trace, n: int) {
    1 <= n <= 9 && Pending(tr, LG(n)) != [] && forall m :: 1 <= m < n ==> Pending(tr, LG(m)) == []
  }

  ghost predicate NoPc(c: Config, tr: Trace) {
    forall n :: 0 <= n < c.npc ==> Pending(tr, PC(n)) == []
  }

  /** Label `n` is the first PC label that is awaited. */
  ghost predicate FirstPc(c: Config, tr: Trace, n: int) {
    0 <= n < c.npc && Pending(tr, PC(n)) != [] && forall m :: 0 <= m < n ==> Pending(tr, PC(m)) == []
  }

  /** What is said about a finished trace: local labels come first, and of each kind the lowest number. */
  ghost predicate Verdict(c: Config, tr: Trace, st: Status) {
    match st
    case OK => NoLocal(tr) && NoPc(c, tr)
    case UndefL(n) => FirstLocal(tr, n)
    case UndefPC(n) => NoLocal(tr) && FirstPc(c, tr, n)
    case _ => false
  }

  /** There is one verdict. */
  lemma OneVerdict(c: Config, tr: Trace, a: Status, b: Status)
    requires Verdict(c, tr, a) && Verdict(c, tr, b)
    ensures a == b
  {
  }

  lemma SameVerdict(c: Config, tr: Trace, tr': Trace, st: Status)
    requires forall k :: Pending(tr', k) == Pending(tr, k)
    requires NoLocal(tr) && if st.OK? then NoPc(c, tr') else st.UndefPC? && FirstPc(c, tr', st.n)
    ensures Verdict(c, tr, st)
  {
  }

  // ---------- in terms of keys ----------

  lemma PcKeys(c: Config, tr: Trace)
    ensures NoPc(c, tr) <==> forall k :: ValidKey(c, k) && k.PC? ==> Pending(tr, k) == []
  {
    if NoPc(c, tr) {
      forall k | ValidKey(c, k) && k.PC? ensures Pending(tr, k) == [] {
        assert k == PC(k.n);
      }
    } else {
      var n :| 0 <= n < c.npc && Pending(tr, PC(n)) != [];
      assert ValidKey(c, PC(n)) && PC(n).PC?;
    }
  }

  lemma LocalKeys(c: Config, tr: Trace)
    requires c.nlg >= 10
    ensures NoLocal(tr) <==> forall k :: ValidKey(c, k) && IsReset(k) ==> Pending(tr, k) == []
  {
    if NoLocal(tr) {
      forall k | ValidKey(c, k) && IsReset(k) ensures Pending(tr, k) == [] {
        assert k == LG(k.n);
      }
    } else {
      var n :| 1 <= n <= 9 && Pending(tr, LG(n)) != [];
      assert ValidKey(c, LG(n)) && IsReset(LG(n));
    }
  }

  /** The verdict is good exactly if no local label and no PC label is awaited. */
  lemma VerdictKeys(c: Config, tr: Trace, st: Status)
    requires c.nlg >= 10 && Verdict(c, tr, st)
    ensures st.OK? <==> forall k :: ValidKey(c, k) && (IsReset(k) || k.PC?) ==> Pending(tr, k) == []
  {
    LocalKeys(c, tr);
    PcKeys(c, tr);
  }
}
