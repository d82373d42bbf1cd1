/** Per-second rates of counter growth, the arithmetic both metrics scripts
    share: a delta divided by the sampling interval, and a byte delta divided
    by 1024 twice and by the interval. */
module Throughput {

  const MiB: real := 1024.0 * 1024.0

  /** A growth per second over an interval of `interval` seconds. */
  function PerSecond(x: real, interval: real): (r: real)
    requires interval != 0.0
    ensures r * interval == x
  {
    x / interval
  }

  /** A growth in bytes as MiB per second over an interval of `interval` seconds. */
  function MebibytesPerSecond(x: real, interval: real): (r: real)
    requires interval != 0.0
    ensures r * MiB * interval == x
  {
    var y := x / 1024.0 / 1024.0;
    assert y * MiB == x;
    y / interval
  }

}
