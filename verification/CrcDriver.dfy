/** crc_lld_reset and crc_lld_calc as the driver runs them, one register per driver object. */
module CrcDriver {
  import opened Crc

  function TopMask(n: bv32): bv32
    requires PolySize(n)
  {
    (1 as bv32) << (n - 1)
  }

  /** The masks the driver computes from the polynomial size. */
  lemma Masks(n: bv32)
    requires PolySize(n)
    ensures TopMask(n) == if n == 16 then 0x8000 else 0x8000_0000
    ensures TopMask(n) | (TopMask(n) - 1) == Mask(n)
  {
  }

  class Driver {
    const config: Config
    var crc: bv32

    constructor (config: Config)
      ensures this.config == config && crc == config.initialVal
    {
      this.config := config;
      crc := config.initialVal;
    }

    /** crc_lld_reset. */
    method Reset()
      modifies this
      ensures crc == config.initialVal
    {
      crc := config.initialVal;
    }

    /** The mask for the polynomial size. */
    static method MaskBits(n: bv32) returns (mask: bv32)
      requires PolySize(n)
      ensures mask == Mask(n)
    {
      Masks(n);
      mask := TopMask(n);
      mask := mask | (mask - 1);
    }

    /** The loop over the bits of one byte. */
    method DivideByte(start: bv32) returns (r: bv32)
      requires PolySize(config.polySize)
      ensures r == DivideSteps(config.polySize, config.poly, start, 8)
    {
      hide TopBit, Double, Xor;
      r := start;
      var bit := 8;
      while bit > 0
        invariant 0 <= bit <= 8
        invariant DivideSteps(config.polySize, config.poly, start, 8)
                  == DivideSteps(config.polySize, config.poly, r, bit)
      {
        if TopBit(config.polySize, r) {
          r := Xor(Double(r), config.poly);
        } else {
          r := Double(r);
        }
        bit := bit - 1;
      }
    }

    /** crc_lld_calc, its loop when the configuration has a table. */
    method CalcByTable(buf: Message)
      requires PolySize(config.polySize) && config.table != NoTable
      modifies this
      ensures crc == Register(config, old(crc), buf)
    {
      hide OneByte, Xor, Entry, Rest, LowByte;
      var i := 0;
      while i < |buf|
        invariant 0 <= i <= |buf|
        invariant Register(config, old(crc), buf) == Register(config, crc, buf[i..])
      {
        var data := buf[i];
        OneTableByte(config, crc, data);
        assert buf[i..][1..] == buf[i + 1..];
        var idx := LowByte(Xor(crc, data as bv32));
        crc := Xor(Entry(config.table, idx), Rest(crc));
        i := i + 1;
      }
    }

    /** crc_lld_calc, its loop when the configuration has no table. */
    method CalcByBits(buf: Message)
      requires PolySize(config.polySize) && config.table == NoTable
      modifies this
      ensures crc == Register(config, old(crc), buf)
    {
      hide OneByte, Xor, AlignTo, Reflected, DivideSteps;
      var i := 0;
      while i < |buf|
        invariant 0 <= i <= |buf|
        invariant Register(config, old(crc), buf) == Register(config, crc, buf[i..])
      {
        OneBitwiseByte(config, crc, buf[i]);
        assert buf[i..][1..] == buf[i + 1..];
        var data := buf[i] as bv32;
        if config.reflectData {
          data := Reflect(data, 8);
        }
        crc := DivideByte(Xor(crc, AlignTo(config.polySize, data)));
        i := i + 1;
      }
    }

    /** crc_lld_calc. */
    method Calc(buf: Message) returns (result: bv32)
      requires PolySize(config.polySize)
      modifies this
      ensures crc == Register(config, old(crc), buf)
      ensures result == Result(config, crc)
    {
      hide Xor, Reflected, Register, And, Mask;
      var mask := MaskBits(config.polySize);
      if config.table != NoTable {
        CalcByTable(buf);
      } else {
        CalcByBits(buf);
      }
      result := crc;
      if config.table == NoTable && config.reflectRemainder {
        result := Reflect(result, config.polySize);
      }
      result := And(Xor(result, config.finalVal), mask);
    }
  }

  lemma OneTableByte(cfg: Config, crc: bv32, d: bv8)
    requires PolySize(cfg.polySize) && cfg.table != NoTable
    ensures OneByte(cfg, crc, d) == Xor(Entry(cfg.table, LowByte(Xor(crc, d as bv32))), Rest(crc))
  {
    hide Xor, Entry, Rest, LowByte;
  }

  lemma OneBitwiseByte(cfg: Config, crc: bv32, d: bv8)
    requires PolySize(cfg.polySize) && cfg.table == NoTable
    ensures var data := if cfg.reflectData then Reflected(d as bv32, 8) else d as bv32;
            OneByte(cfg, crc, d) ==
            DivideSteps(cfg.polySize, cfg.poly, Xor(crc, AlignTo(cfg.polySize, data)), 8)
  {
    hide Xor, AlignTo, Reflected, DivideSteps;
  }
}
