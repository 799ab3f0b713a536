/** The growth-phase gate shared by both track-based engines.  The program
    draws a uniform number per step and leaves the growth phase once a draw
    exceeds a threshold; here `gate[j]` is whether the j-th draw did. */
module PhaseGate {

  datatype CellState = GPhase | SPhase

  /** Runs the warm-up loop from `state`.  In the growth phase it consumes
      draws up to and including the first exceeding one, and reports how many
      it consumed; in the synthesis phase it consumes none. */
  method EnterSPhase(state: CellState, gate: seq<bool>) returns (next: CellState, warmups: nat)
    requires state == GPhase ==> true in gate
    ensures next == SPhase
    ensures state == SPhase ==> warmups == 0
    ensures state == GPhase ==> 0 < warmups <= |gate| && gate[warmups - 1]
    ensures forall j :: 0 <= j < warmups - 1 ==> !gate[j]
  {
    next := state;
    warmups := 0;
    while next == GPhase
      invariant warmups <= |gate|
      invariant next == GPhase ==> state == GPhase && exists j :: warmups <= j < |gate| && gate[j]
      invariant next == GPhase ==> forall j :: 0 <= j < warmups ==> !gate[j]
      invariant state == SPhase ==> next == SPhase && warmups == 0
      invariant state == GPhase && next == SPhase ==> 0 < warmups && gate[warmups - 1]
      invariant next == SPhase ==> forall j :: 0 <= j < warmups - 1 ==> !gate[j]
      decreases |gate| - warmups
    {
      if gate[warmups] {
        next := SPhase;
      }
      warmups := warmups + 1;
    }
  }
}
