/** A binary input file stream with the fail flag that the reading loops test. */
module InputStreams {
  import opened MachineTypes

  /** The bytes a read of up to n bytes at position pos delivers. */
  function Window(data: seq<byte>, pos: nat, n: nat): (w: seq<byte>)
    ensures |w| <= n
    ensures pos >= |data| ==> w == []
    ensures pos <= |data| ==> |w| == if |data| - pos < n then |data| - pos else n
  {
    if pos >= |data| then [] else if |data| - pos < n then data[pos..] else data[pos..pos + n]
  }

  /** An open file: where the next read begins, and whether the fail flag is set. */
  datatype InputStream = InputStream(pos: nat, failed: bool) {

    /** A failed stream delivers nothing. */
    function Delivers(data: seq<byte>, n: nat): (buffer: seq<byte>)
      ensures |buffer| <= n
    {
      if failed then [] else Window(data, pos, n)
    }

    /** A short read sets end-of-file and fail together. */
    function AfterRead(bytes: nat, n: nat): InputStream {
      InputStream(pos + bytes, failed || bytes < n)
    }

    /** Seeking clears end-of-file but not fail, and does nothing while fail is set. */
    function AfterSeek(target: nat): InputStream {
      if failed then this else InputStream(target, false)
    }
  }

  const OPENED: InputStream := InputStream(0, false)
}
