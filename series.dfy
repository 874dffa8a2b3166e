/**
 * The propagated state history as the exporters read it
 * (spacecraft_trajectory_propagator.py, lines 164-170, 240-247 and 274-275):
 * its epochs and its states as two separate lists, each decimated on its own.
 */
module Series {
  import opened Frames
  import opened Decimation

  /** list(results_dict.keys()) */
  function Epochs(series: seq<Sample>): seq<real> {
    seq(|series|, i requires 0 <= i < |series| => series[i].epoch)
  }

  /** list(results_dict.values()) */
  function States(series: seq<Sample>): seq<StateVector> {
    seq(|series|, i requires 0 <= i < |series| => series[i].state)
  }

  /** Decimating the epochs and the states with the same stride keeps them paired:
      the i-th retained state is the state of the i-th retained epoch, and both are
      those of the retained sample. */
  lemma DecimatedColumnsPaired(series: seq<Sample>, k: nat)
    requires k > 0
    ensures var kept := Decimate(series, k);
      && |Decimate(Epochs(series), k)| == |kept| && |Decimate(States(series), k)| == |kept|
      && forall i :: 0 <= i < |kept| ==>
           Decimate(Epochs(series), k)[i] == kept[i].epoch && Decimate(States(series), k)[i] == kept[i].state
  {
    DecimateColumn(series, Epochs(series), k, (x: Sample) => x.epoch);
    DecimateColumn(series, States(series), k, (x: Sample) => x.state);
  }
}
