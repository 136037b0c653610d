/**
 The edge detector R_TRIG and the counters CTU, CTD and CTUD built on it. CTD and CTUD start from
 a zero count like CTU; the preset value does not change while a counter runs.
 */
module IecCounters {

  class RTrig {
    var EN: bool
    var ENO: bool
    var CLK: bool
    var Q: bool
    var M: bool

    constructor ()
      ensures EN && !M && !Q
    {
      EN, ENO, CLK, Q, M := true, true, false, false, false;
    }

    method Body()
      modifies this
      ensures EN == old(EN) == ENO && CLK == old(CLK)
      ensures if EN then Q == (CLK && !old(M)) && M == CLK else Q == old(Q) && M == old(M)
    {
      if !EN {
        ENO := false;
        return;
      }
      ENO := true;
      Q := CLK && !M;
      M := CLK;
    }
  }

  /** A count and the last values of the two clock inputs. */
  datatype Count = Count(cv: int, cu: bool, cd: bool)

  /** One scan of any of the counters. */
  datatype Scan = Scan(cu: bool, cd: bool, r: bool, ld: bool)

  function CtuScan(c: Count, pv: int, x: Scan): Count {
    c.(cu := x.cu, cv := if x.r then 0 else if x.cu && !c.cu && c.cv < pv then c.cv + 1 else c.cv)
  }

  function CtdScan(c: Count, pv: int, x: Scan): Count {
    c.(cd := x.cd, cv := if x.ld then pv else if x.cd && !c.cd && c.cv > 0 then c.cv - 1 else c.cv)
  }

  function CtudScan(c: Count, pv: int, x: Scan): Count {
    var up, down := x.cu && !c.cu, x.cd && !c.cd;
    Count(
      if x.r then 0 else if x.ld then pv
      else if up && down then c.cv
      else if up && c.cv < pv then c.cv + 1
      else if down && c.cv > 0 then c.cv - 1
      else c.cv,
      x.cu, x.cd)
  }

  /** The structs CTU, CTD and CTUD: each body uses the inputs, outputs and triggers of its own block. */
  class Counter {
    var EN: bool
    var ENO: bool
    var CU: bool
    var CD: bool
    var R: bool
    var LD: bool
    var PV: int
    var QU: bool
    var QD: bool
    var CV: int
    const CU_T: RTrig
    const CD_T: RTrig

    constructor ()
      ensures Valid() && fresh(CU_T) && fresh(CD_T) && EN && Current() == Count(0, false, false)
    {
      EN, ENO, CU, CD, R, LD := true, true, false, false, false, false;
      PV, CV, QU, QD := 0, 0, false, false;
      CU_T := new RTrig();
      CD_T := new RTrig();
    }

    ghost predicate Valid()
      reads CU_T, CD_T
    {
      CU_T != CD_T && CU_T.EN && CD_T.EN
    }

    function Current(): Count
      reads this, CU_T, CD_T
    {
      Count(CV, CU_T.M, CD_T.M)
    }

    function Inputs(): Scan
      reads this
    {
      Scan(CU, CD, R, LD)
    }

    method CtuBody()
      requires Valid()
      modifies this, CU_T
      ensures Valid() && ENO == EN == old(EN) && PV == old(PV) && Inputs() == old(Inputs())
      ensures Current() == if EN then CtuScan(old(Current()), PV, Inputs()) else old(Current())
      ensures EN ==> QU == (CV >= PV)
    {
      if !EN {
        ENO := false;
        return;
      }
      ENO := true;
      CU_T.CLK := CU;
      CU_T.Body();
      if R {
        CV := 0;
      } else if CU_T.Q && CV < PV {
        CV := CV + 1;
      }
      QU := CV >= PV;
    }

    method CtdBody()
      requires Valid()
      modifies this, CD_T
      ensures Valid() && ENO == EN == old(EN) && PV == old(PV) && Inputs() == old(Inputs())
      ensures Current() == if EN then CtdScan(old(Current()), PV, Inputs()) else old(Current())
      ensures EN ==> QD == (CV <= 0)
    {
      if !EN {
        ENO := false;
        return;
      }
      ENO := true;
      CD_T.CLK := CD;
      CD_T.Body();
      if LD {
        CV := PV;
      } else if CD_T.Q && CV > 0 {
        CV := CV - 1;
      }
      QD := CV <= 0;
    }

    method CtudBody()
      requires Valid()
      modifies this, CU_T, CD_T
      ensures Valid() && ENO == EN == old(EN) && PV == old(PV) && Inputs() == old(Inputs())
      ensures Current() == if EN then CtudScan(old(Current()), PV, Inputs()) else old(Current())
      ensures EN ==> QU == (CV >= PV) && QD == (CV <= 0)
    {
      if !EN {
        ENO := false;
        return;
      }
      ENO := true;
      CD_T.CLK := CD;
      CD_T.Body();
      CU_T.CLK := CU;
      CU_T.Body();
      if R {
        CV := 0;
      } else if LD {
        CV := PV;
      } else {
        if !(CU_T.Q && CD_T.Q) {
          if CU_T.Q && CV < PV {
            CV := CV + 1;
          } else if CD_T.Q && CV > 0 {
            CV := CV - 1;
          }
        }
      }
      QU := CV >= PV;
      QD := CV <= 0;
    }
  }

  // ---------- whole runs ----------

  datatype Kind = CTU | CTD | CTUD

  function After(kind: Kind, pv: int, h: seq<Scan>, n: nat): Count
    requires n <= |h|
  {
    if n == 0 then Count(0, false, false)
    else
      var c := After(kind, pv, h, n - 1);
      match kind
      case CTU => CtuScan(c, pv, h[n - 1])
      case CTD => CtdScan(c, pv, h[n - 1])
      case CTUD => CtudScan(c, pv, h[n - 1])
  }

  predicate UpEdge(h: seq<Scan>, i: nat)
    requires i < |h|
  {
    h[i].cu && (i == 0 || !h[i - 1].cu)
  }

  predicate DownEdge(h: seq<Scan>, i: nat)
    requires i < |h|
  {
    h[i].cd && (i == 0 || !h[i - 1].cd)
  }

  /** How many of the scans from `i` up to but not including `n` satisfy `p`. */
  function Tally(h: seq<Scan>, p: (seq<Scan>, nat) --> bool, i: nat, n: nat): nat
    requires n <= |h| && forall j: nat :: j < |h| ==> p.requires(h, j)
    decreases n
  {
    if n <= i then 0 else Tally(h, p, i, n - 1) + if p(h, n - 1) then 1 else 0
  }

  /** The scans since the last reset start here. */
  function SinceReset(h: seq<Scan>, n: nat): (i: nat)
    requires n <= |h|
    ensures i <= n && (forall j :: i <= j < n ==> !h[j].r) && (i > 0 ==> h[i - 1].r)
  {
    if n == 0 || h[n - 1].r then n else SinceReset(h, n - 1)
  }

  function SinceLoad(h: seq<Scan>, n: nat): (i: nat)
    requires n <= |h|
    ensures i <= n && (forall j :: i <= j < n ==> !h[j].ld) && (i > 0 ==> h[i - 1].ld)
  {
    if n == 0 || h[n - 1].ld then n else SinceLoad(h, n - 1)
  }

  /** CTU counts the rising edges since the last reset scan, up to the preset value; with a negative one it stays at zero. */
  lemma {:induction false} CtuCountsEdges(pv: int, h: seq<Scan>, n: nat)
    requires n <= |h|
    ensures var edges := Tally(h, UpEdge, SinceReset(h, n), n);
            After(CTU, pv, h, n).cv == if edges <= pv then edges else if pv >= 0 then pv else 0
    ensures After(CTU, pv, h, n).cu == (n > 0 && h[n - 1].cu)
    decreases n
  {
    if n > 0 { CtuCountsEdges(pv, h, n - 1); }
  }

  /** CTD counts down from the last load, or from zero if there was none, and stops at zero or at a negative preset value. */
  lemma {:induction false} CtdCountsDown(pv: int, h: seq<Scan>, n: nat)
    requires n <= |h|
    ensures var from := SinceLoad(h, n);
            var edges := Tally(h, DownEdge, from, n);
            After(CTD, pv, h, n).cv == if from > 0 && pv < 0 then pv else if from > 0 && edges <= pv then pv - edges else 0
    ensures After(CTD, pv, h, n).cd == (n > 0 && h[n - 1].cd)
    decreases n
  {
    if n > 0 { CtdCountsDown(pv, h, n - 1); }
  }

  function Clamp(x: int, pv: int): int {
    if x < 0 then 0 else if x > pv then pv else x
  }

  /** The walk CTUD should make: reset before load before counting, opposite edges cancelling, within 0 and the preset. */
  function Walk(pv: int, h: seq<Scan>, n: nat): int
    requires n <= |h|
  {
    if n == 0 then 0
    else if h[n - 1].r then 0
    else if h[n - 1].ld then pv
    else Clamp(Walk(pv, h, n - 1) + (if UpEdge(h, n - 1) then 1 else 0) - (if DownEdge(h, n - 1) then 1 else 0), pv)
  }

  /** CTUD makes that walk, so its count never leaves the preset range and never overflows. */
  lemma {:induction false} CtudWalks(pv: int, h: seq<Scan>, n: nat)
    requires pv >= 0 && n <= |h|
    ensures After(CTUD, pv, h, n).cv == Walk(pv, h, n) && 0 <= Walk(pv, h, n) <= pv
    ensures After(CTUD, pv, h, n).cu == (n > 0 && h[n - 1].cu) && After(CTUD, pv, h, n).cd == (n > 0 && h[n - 1].cd)
    decreases n
  {
    if n > 0 { CtudWalks(pv, h, n - 1); }
  }

  /** A negative preset value stops all counting: the count is what the last reset or load left. */
  lemma {:induction false} NegativePreset(pv: int, h: seq<Scan>, n: nat)
    requires pv < 0 && n <= |h|
    ensures After(CTUD, pv, h, n).cv == if SinceLoad(h, n) > SinceReset(h, n) then pv else 0
    decreases n
  {
    if n > 0 { NegativePreset(pv, h, n - 1); }
  }

  /** While neither bound is met and nothing resets or loads, the count is the balance of the edges. */
  lemma {:induction false} CtudBalances(pv: int, h: seq<Scan>, i: nat, n: nat)
    requires pv >= 0 && i <= n <= |h|
    requires forall j :: i <= j < n ==> !h[j].r && !h[j].ld && 0 < After(CTUD, pv, h, j).cv < pv
    ensures After(CTUD, pv, h, n).cv == After(CTUD, pv, h, i).cv + Tally(h, UpEdge, i, n) - Tally(h, DownEdge, i, n)
    decreases n
  {
    if i < n {
      CtudBalances(pv, h, i, n - 1);
      CtudWalks(pv, h, n - 1);
    }
  }
}
