/** The 256-entry table of common/apps/modem_control/crc16.c, in sixteen rows. */
module Crc16Table {
  import opened Words

  /** One clock of the register with no data bit. */
  function Clock(c: bv16): bv16 {
    if Bottom16(c) then Xor16(Right16(c), 0xA001) else Right16(c)
  }

  function Clock8(c: bv16): bv16 {
    Clock(Clock(Clock(Clock(Clock(Clock(Clock(Clock(c))))))))
  }

  function Row0(j: bv8): (entry: bv16)
    requires j < 16
    ensures entry == Clock8(Widen16(0x00 | j))
  {
    match j
    case 0 => 0x0000 case 1 => 0xC0C1 case 2 => 0xC181 case 3 => 0x0140
    case 4 => 0xC301 case 5 => 0x03C0 case 6 => 0x0280 case 7 => 0xC241
    case 8 => 0xC601 case 9 => 0x06C0 case 10 => 0x0780 case 11 => 0xC741
    case 12 => 0x0500 case 13 => 0xC5C1 case 14 => 0xC481 case _ => 0x0440
  }

  function Row1(j: bv8): (entry: bv16)
    requires j < 16
    ensures entry == Clock8(Widen16(0x10 | j))
  {
    match j
    case 0 => 0xCC01 case 1 => 0x0CC0 case 2 => 0x0D80 case 3 => 0xCD41
    case 4 => 0x0F00 case 5 => 0xCFC1 case 6 => 0xCE81 case 7 => 0x0E40
    case 8 => 0x0A00 case 9 => 0xCAC1 case 10 => 0xCB81 case 11 => 0x0B40
    case 12 => 0xC901 case 13 => 0x09C0 case 14 => 0x0880 case _ => 0xC841
  }

  function Row2(j: bv8): (entry: bv16)
    requires j < 16
    ensures entry == Clock8(Widen16(0x20 | j))
  {
    match j
    case 0 => 0xD801 case 1 => 0x18C0 case 2 => 0x1980 case 3 => 0xD941
    case 4 => 0x1B00 case 5 => 0xDBC1 case 6 => 0xDA81 case 7 => 0x1A40
    case 8 => 0x1E00 case 9 => 0xDEC1 case 10 => 0xDF81 case 11 => 0x1F40
    case 12 => 0xDD01 case 13 => 0x1DC0 case 14 => 0x1C80 case _ => 0xDC41
  }

  function Row3(j: bv8): (entry: bv16)
    requires j < 16
    ensures entry == Clock8(Widen16(0x30 | j))
  {
    match j
    case 0 => 0x1400 case 1 => 0xD4C1 case 2 => 0xD581 case 3 => 0x1540
    case 4 => 0xD701 case 5 => 0x17C0 case 6 => 0x1680 case 7 => 0xD641
    case 8 => 0xD201 case 9 => 0x12C0 case 10 => 0x1380 case 11 => 0xD341
    case 12 => 0x1100 case 13 => 0xD1C1 case 14 => 0xD081 case _ => 0x1040
  }

  function Row4(j: bv8): (entry: bv16)
    requires j < 16
    ensures entry == Clock8(Widen16(0x40 | j))
  {
    match j
    case 0 => 0xF001 case 1 => 0x30C0 case 2 => 0x3180 case 3 => 0xF141
    case 4 => 0x3300 case 5 => 0xF3C1 case 6 => 0xF281 case 7 => 0x3240
    case 8 => 0x3600 case 9 => 0xF6C1 case 10 => 0xF781 case 11 => 0x3740
    case 12 => 0xF501 case 13 => 0x35C0 case 14 => 0x3480 case _ => 0xF441
  }

  function Row5(j: bv8): (entry: bv16)
    requires j < 16
    ensures entry == Clock8(Widen16(0x50 | j))
  {
    match j
    case 0 => 0x3C00 case 1 => 0xFCC1 case 2 => 0xFD81 case 3 => 0x3D40
    case 4 => 0xFF01 case 5 => 0x3FC0 case 6 => 0x3E80 case 7 => 0xFE41
    case 8 => 0xFA01 case 9 => 0x3AC0 case 10 => 0x3B80 case 11 => 0xFB41
    case 12 => 0x3900 case 13 => 0xF9C1 case 14 => 0xF881 case _ => 0x3840
  }

  function Row6(j: bv8): (entry: bv16)
    requires j < 16
    ensures entry == Clock8(Widen16(0x60 | j))
  {
    match j
    case 0 => 0x2800 case 1 => 0xE8C1 case 2 => 0xE981 case 3 => 0x2940
    case 4 => 0xEB01 case 5 => 0x2BC0 case 6 => 0x2A80 case 7 => 0xEA41
    case 8 => 0xEE01 case 9 => 0x2EC0 case 10 => 0x2F80 case 11 => 0xEF41
    case 12 => 0x2D00 case 13 => 0xEDC1 case 14 => 0xEC81 case _ => 0x2C40
  }

  function Row7(j: bv8): (entry: bv16)
    requires j < 16
    ensures entry == Clock8(Widen16(0x70 | j))
  {
    match j
    case 0 => 0xE401 case 1 => 0x24C0 case 2 => 0x2580 case 3 => 0xE541
    case 4 => 0x2700 case 5 => 0xE7C1 case 6 => 0xE681 case 7 => 0x2640
    case 8 => 0x2200 case 9 => 0xE2C1 case 10 => 0xE381 case 11 => 0x2340
    case 12 => 0xE101 case 13 => 0x21C0 case 14 => 0x2080 case _ => 0xE041
  }

  function Row8(j: bv8): (entry: bv16)
    requires j < 16
    ensures entry == Clock8(Widen16(0x80 | j))
  {
    match j
    case 0 => 0xA001 case 1 => 0x60C0 case 2 => 0x6180 case 3 => 0xA141
    case 4 => 0x6300 case 5 => 0xA3C1 case 6 => 0xA281 case 7 => 0x6240
    case 8 => 0x6600 case 9 => 0xA6C1 case 10 => 0xA781 case 11 => 0x6740
    case 12 => 0xA501 case 13 => 0x65C0 case 14 => 0x6480 case _ => 0xA441
  }

  function Row9(j: bv8): (entry: bv16)
    requires j < 16
    ensures entry == Clock8(Widen16(0x90 | j))
  {
    match j
    case 0 => 0x6C00 case 1 => 0xACC1 case 2 => 0xAD81 case 3 => 0x6D40
    case 4 => 0xAF01 case 5 => 0x6FC0 case 6 => 0x6E80 case 7 => 0xAE41
    case 8 => 0xAA01 case 9 => 0x6AC0 case 10 => 0x6B80 case 11 => 0xAB41
    case 12 => 0x6900 case 13 => 0xA9C1 case 14 => 0xA881 case _ => 0x6840
  }

  function RowA(j: bv8): (entry: bv16)
    requires j < 16
    ensures entry == Clock8(Widen16(0xA0 | j))
  {
    match j
    case 0 => 0x7800 case 1 => 0xB8C1 case 2 => 0xB981 case 3 => 0x7940
    case 4 => 0xBB01 case 5 => 0x7BC0 case 6 => 0x7A80 case 7 => 0xBA41
    case 8 => 0xBE01 case 9 => 0x7EC0 case 10 => 0x7F80 case 11 => 0xBF41
    case 12 => 0x7D00 case 13 => 0xBDC1 case 14 => 0xBC81 case _ => 0x7C40
  }

  function RowB(j: bv8): (entry: bv16)
    requires j < 16
    ensures entry == Clock8(Widen16(0xB0 | j))
  {
    match j
    case 0 => 0xB401 case 1 => 0x74C0 case 2 => 0x7580 case 3 => 0xB541
    case 4 => 0x7700 case 5 => 0xB7C1 case 6 => 0xB681 case 7 => 0x7640
    case 8 => 0x7200 case 9 => 0xB2C1 case 10 => 0xB381 case 11 => 0x7340
    case 12 => 0xB101 case 13 => 0x71C0 case 14 => 0x7080 case _ => 0xB041
  }

  function RowC(j: bv8): (entry: bv16)
    requires j < 16
    ensures entry == Clock8(Widen16(0xC0 | j))
  {
    match j
    case 0 => 0x5000 case 1 => 0x90C1 case 2 => 0x9181 case 3 => 0x5140
    case 4 => 0x9301 case 5 => 0x53C0 case 6 => 0x5280 case 7 => 0x9241
    case 8 => 0x9601 case 9 => 0x56C0 case 10 => 0x5780 case 11 => 0x9741
    case 12 => 0x5500 case 13 => 0x95C1 case 14 => 0x9481 case _ => 0x5440
  }

  function RowD(j: bv8): (entry: bv16)
    requires j < 16
    ensures entry == Clock8(Widen16(0xD0 | j))
  {
    match j
    case 0 => 0x9C01 case 1 => 0x5CC0 case 2 => 0x5D80 case 3 => 0x9D41
    case 4 => 0x5F00 case 5 => 0x9FC1 case 6 => 0x9E81 case 7 => 0x5E40
    case 8 => 0x5A00 case 9 => 0x9AC1 case 10 => 0x9B81 case 11 => 0x5B40
    case 12 => 0x9901 case 13 => 0x59C0 case 14 => 0x5880 case _ => 0x9841
  }

  function RowE(j: bv8): (entry: bv16)
    requires j < 16
    ensures entry == Clock8(Widen16(0xE0 | j))
  {
    match j
    case 0 => 0x8801 case 1 => 0x48C0 case 2 => 0x4980 case 3 => 0x8941
    case 4 => 0x4B00 case 5 => 0x8BC1 case 6 => 0x8A81 case 7 => 0x4A40
    case 8 => 0x4E00 case 9 => 0x8EC1 case 10 => 0x8F81 case 11 => 0x4F40
    case 12 => 0x8D01 case 13 => 0x4DC0 case 14 => 0x4C80 case _ => 0x8C41
  }

  function RowF(j: bv8): (entry: bv16)
    requires j < 16
    ensures entry == Clock8(Widen16(0xF0 | j))
  {
    match j
    case 0 => 0x4400 case 1 => 0x84C1 case 2 => 0x8581 case 3 => 0x4540
    case 4 => 0x8701 case 5 => 0x47C0 case 6 => 0x4680 case 7 => 0x8641
    case 8 => 0x8201 case 9 => 0x42C0 case 10 => 0x4380 case 11 => 0x8341
    case 12 => 0x4100 case 13 => 0x81C1 case 14 => 0x8081 case _ => 0x4040
  }

  /** Entry `i` of the table is eight clocks of the register loaded with `i`. */
  function Entry(i: bv8): (entry: bv16)
    ensures entry == Clock8(Widen16(i))
  {
    hide Clock8;
    var j := i & 0xF;
    match i >> 4
    case 0 => assert 0x00 | j == i; Row0(j)
    case 1 => assert 0x10 | j == i; Row1(j)
    case 2 => assert 0x20 | j == i; Row2(j)
    case 3 => assert 0x30 | j == i; Row3(j)
    case 4 => assert 0x40 | j == i; Row4(j)
    case 5 => assert 0x50 | j == i; Row5(j)
    case 6 => assert 0x60 | j == i; Row6(j)
    case 7 => assert 0x70 | j == i; Row7(j)
    case 8 => assert 0x80 | j == i; Row8(j)
    case 9 => assert 0x90 | j == i; Row9(j)
    case 10 => assert 0xA0 | j == i; RowA(j)
    case 11 => assert 0xB0 | j == i; RowB(j)
    case 12 => assert 0xC0 | j == i; RowC(j)
    case 13 => assert 0xD0 | j == i; RowD(j)
    case 14 => assert 0xE0 | j == i; RowE(j)
    case _ => assert 0xF0 | j == i; RowF(j)
  }
}

/** The 256-entry table of common/apps/nvm_daemon/crc32b.c, in sixteen rows. */
module Crc32Table {
  import opened Words

  /** One clock of the register with no data bit. */
  function Clock(c: bv32): bv32 {
    if Top32(c) then Xor32(Left32(c), 0x04c1_1db7) else Left32(c)
  }

  function Clock8(c: bv32): bv32 {
    Clock(Clock(Clock(Clock(Clock(Clock(Clock(Clock(c))))))))
  }

  function Row0(j: bv8): (entry: bv32)
    requires j < 16
    ensures entry == Clock8(Load32(0x00 | j))
  {
    match j
    case 0 => 0x00000000 case 1 => 0x04c11db7 case 2 => 0x09823b6e case 3 => 0x0d4326d9
    case 4 => 0x130476dc case 5 => 0x17c56b6b case 6 => 0x1a864db2 case 7 => 0x1e475005
    case 8 => 0x2608edb8 case 9 => 0x22c9f00f case 10 => 0x2f8ad6d6 case 11 => 0x2b4bcb61
    case 12 => 0x350c9b64 case 13 => 0x31cd86d3 case 14 => 0x3c8ea00a case _ => 0x384fbdbd
  }

  function Row1(j: bv8): (entry: bv32)
    requires j < 16
    ensures entry == Clock8(Load32(0x10 | j))
  {
    match j
    case 0 => 0x4c11db70 case 1 => 0x48d0c6c7 case 2 => 0x4593e01e case 3 => 0x4152fda9
    case 4 => 0x5f15adac case 5 => 0x5bd4b01b case 6 => 0x569796c2 case 7 => 0x52568b75
    case 8 => 0x6a1936c8 case 9 => 0x6ed82b7f case 10 => 0x639b0da6 case 11 => 0x675a1011
    case 12 => 0x791d4014 case 13 => 0x7ddc5da3 case 14 => 0x709f7b7a case _ => 0x745e66cd
  }

  function Row2(j: bv8): (entry: bv32)
    requires j < 16
    ensures entry == Clock8(Load32(0x20 | j))
  {
    match j
    case 0 => 0x9823b6e0 case 1 => 0x9ce2ab57 case 2 => 0x91a18d8e case 3 => 0x95609039
    case 4 => 0x8b27c03c case 5 => 0x8fe6dd8b case 6 => 0x82a5fb52 case 7 => 0x8664e6e5
    case 8 => 0xbe2b5b58 case 9 => 0xbaea46ef case 10 => 0xb7a96036 case 11 => 0xb3687d81
    case 12 => 0xad2f2d84 case 13 => 0xa9ee3033 case 14 => 0xa4ad16ea case _ => 0xa06c0b5d
  }

  function Row3(j: bv8): (entry: bv32)
    requires j < 16
    ensures entry == Clock8(Load32(0x30 | j))
  {
    match j
    case 0 => 0xd4326d90 case 1 => 0xd0f37027 case 2 => 0xddb056fe case 3 => 0xd9714b49
    case 4 => 0xc7361b4c case 5 => 0xc3f706fb case 6 => 0xceb42022 case 7 => 0xca753d95
    case 8 => 0xf23a8028 case 9 => 0xf6fb9d9f case 10 => 0xfbb8bb46 case 11 => 0xff79a6f1
    case 12 => 0xe13ef6f4 case 13 => 0xe5ffeb43 case 14 => 0xe8bccd9a case _ => 0xec7dd02d
  }

  function Row4(j: bv8): (entry: bv32)
    requires j < 16
    ensures entry == Clock8(Load32(0x40 | j))
  {
    match j
    case 0 => 0x34867077 case 1 => 0x30476dc0 case 2 => 0x3d044b19 case 3 => 0x39c556ae
    case 4 => 0x278206ab case 5 => 0x23431b1c case 6 => 0x2e003dc5 case 7 => 0x2ac12072
    case 8 => 0x128e9dcf case 9 => 0x164f8078 case 10 => 0x1b0ca6a1 case 11 => 0x1fcdbb16
    case 12 => 0x018aeb13 case 13 => 0x054bf6a4 case 14 => 0x0808d07d case _ => 0x0cc9cdca
  }

  function Row5(j: bv8): (entry: bv32)
    requires j < 16
    ensures entry == Clock8(Load32(0x50 | j))
  {
    match j
    case 0 => 0x7897ab07 case 1 => 0x7c56b6b0 case 2 => 0x71159069 case 3 => 0x75d48dde
    case 4 => 0x6b93dddb case 5 => 0x6f52c06c case 6 => 0x6211e6b5 case 7 => 0x66d0fb02
    case 8 => 0x5e9f46bf case 9 => 0x5a5e5b08 case 10 => 0x571d7dd1 case 11 => 0x53dc6066
    case 12 => 0x4d9b3063 case 13 => 0x495a2dd4 case 14 => 0x44190b0d case _ => 0x40d816ba
  }

  function Row6(j: bv8): (entry: bv32)
    requires j < 16
    ensures entry == Clock8(Load32(0x60 | j))
  {
    match j
    case 0 => 0xaca5c697 case 1 => 0xa864db20 case 2 => 0xa527fdf9 case 3 => 0xa1e6e04e
    case 4 => 0xbfa1b04b case 5 => 0xbb60adfc case 6 => 0xb6238b25 case 7 => 0xb2e29692
    case 8 => 0x8aad2b2f case 9 => 0x8e6c3698 case 10 => 0x832f1041 case 11 => 0x87ee0df6
    case 12 => 0x99a95df3 case 13 => 0x9d684044 case 14 => 0x902b669d case _ => 0x94ea7b2a
  }

  function Row7(j: bv8): (entry: bv32)
    requires j < 16
    ensures entry == Clock8(Load32(0x70 | j))
  {
    match j
    case 0 => 0xe0b41de7 case 1 => 0xe4750050 case 2 => 0xe9362689 case 3 => 0xedf73b3e
    case 4 => 0xf3b06b3b case 5 => 0xf771768c case 6 => 0xfa325055 case 7 => 0xfef34de2
    case 8 => 0xc6bcf05f case 9 => 0xc27dede8 case 10 => 0xcf3ecb31 case 11 => 0xcbffd686
    case 12 => 0xd5b88683 case 13 => 0xd1799b34 case 14 => 0xdc3abded case _ => 0xd8fba05a
  }

  function Row8(j: bv8): (entry: bv32)
    requires j < 16
    ensures entry == Clock8(Load32(0x80 | j))
  {
    match j
    case 0 => 0x690ce0ee case 1 => 0x6dcdfd59 case 2 => 0x608edb80 case 3 => 0x644fc637
    case 4 => 0x7a089632 case 5 => 0x7ec98b85 case 6 => 0x738aad5c case 7 => 0x774bb0eb
    case 8 => 0x4f040d56 case 9 => 0x4bc510e1 case 10 => 0x46863638 case 11 => 0x42472b8f
    case 12 => 0x5c007b8a case 13 => 0x58c1663d case 14 => 0x558240e4 case _ => 0x51435d53
  }

  function Row9(j: bv8): (entry: bv32)
    requires j < 16
    ensures entry == Clock8(Load32(0x90 | j))
  {
    match j
    case 0 => 0x251d3b9e case 1 => 0x21dc2629 case 2 => 0x2c9f00f0 case 3 => 0x285e1d47
    case 4 => 0x36194d42 case 5 => 0x32d850f5 case 6 => 0x3f9b762c case 7 => 0x3b5a6b9b
    case 8 => 0x0315d626 case 9 => 0x07d4cb91 case 10 => 0x0a97ed48 case 11 => 0x0e56f0ff
    case 12 => 0x1011a0fa case 13 => 0x14d0bd4d case 14 => 0x19939b94 case _ => 0x1d528623
  }

  function RowA(j: bv8): (entry: bv32)
    requires j < 16
    ensures entry == Clock8(Load32(0xA0 | j))
  {
    match j
    case 0 => 0xf12f560e case 1 => 0xf5ee4bb9 case 2 => 0xf8ad6d60 case 3 => 0xfc6c70d7
    case 4 => 0xe22b20d2 case 5 => 0xe6ea3d65 case 6 => 0xeba91bbc case 7 => 0xef68060b
    case 8 => 0xd727bbb6 case 9 => 0xd3e6a601 case 10 => 0xdea580d8 case 11 => 0xda649d6f
    case 12 => 0xc423cd6a case 13 => 0xc0e2d0dd case 14 => 0xcda1f604 case _ => 0xc960ebb3
  }

  function RowB(j: bv8): (entry: bv32)
    requires j < 16
    ensures entry == Clock8(Load32(0xB0 | j))
  {
    match j
    case 0 => 0xbd3e8d7e case 1 => 0xb9ff90c9 case 2 => 0xb4bcb610 case 3 => 0xb07daba7
    case 4 => 0xae3afba2 case 5 => 0xaafbe615 case 6 => 0xa7b8c0cc case 7 => 0xa379dd7b
    case 8 => 0x9b3660c6 case 9 => 0x9ff77d71 case 10 => 0x92b45ba8 case 11 => 0x9675461f
    case 12 => 0x8832161a case 13 => 0x8cf30bad case 14 => 0x81b02d74 case _ => 0x857130c3
  }

  function RowC(j: bv8): (entry: bv32)
    requires j < 16
    ensures entry == Clock8(Load32(0xC0 | j))
  {
    match j
    case 0 => 0x5d8a9099 case 1 => 0x594b8d2e case 2 => 0x5408abf7 case 3 => 0x50c9b640
    case 4 => 0x4e8ee645 case 5 => 0x4a4ffbf2 case 6 => 0x470cdd2b case 7 => 0x43cdc09c
    case 8 => 0x7b827d21 case 9 => 0x7f436096 case 10 => 0x7200464f case 11 => 0x76c15bf8
    case 12 => 0x68860bfd case 13 => 0x6c47164a case 14 => 0x61043093 case _ => 0x65c52d24
  }

  function RowD(j: bv8): (entry: bv32)
    requires j < 16
    ensures entry == Clock8(Load32(0xD0 | j))
  {
    match j
    case 0 => 0x119b4be9 case 1 => 0x155a565e case 2 => 0x18197087 case 3 => 0x1cd86d30
    case 4 => 0x029f3d35 case 5 => 0x065e2082 case 6 => 0x0b1d065b case 7 => 0x0fdc1bec
    case 8 => 0x3793a651 case 9 => 0x3352bbe6 case 10 => 0x3e119d3f case 11 => 0x3ad08088
    case 12 => 0x2497d08d case 13 => 0x2056cd3a case 14 => 0x2d15ebe3 case _ => 0x29d4f654
  }

  function RowE(j: bv8): (entry: bv32)
    requires j < 16
    ensures entry == Clock8(Load32(0xE0 | j))
  {
    match j
    case 0 => 0xc5a92679 case 1 => 0xc1683bce case 2 => 0xcc2b1d17 case 3 => 0xc8ea00a0
    case 4 => 0xd6ad50a5 case 5 => 0xd26c4d12 case 6 => 0xdf2f6bcb case 7 => 0xdbee767c
    case 8 => 0xe3a1cbc1 case 9 => 0xe760d676 case 10 => 0xea23f0af case 11 => 0xeee2ed18
    case 12 => 0xf0a5bd1d case 13 => 0xf464a0aa case 14 => 0xf9278673 case _ => 0xfde69bc4
  }

  function RowF(j: bv8): (entry: bv32)
    requires j < 16
    ensures entry == Clock8(Load32(0xF0 | j))
  {
    match j
    case 0 => 0x89b8fd09 case 1 => 0x8d79e0be case 2 => 0x803ac667 case 3 => 0x84fbdbd0
    case 4 => 0x9abc8bd5 case 5 => 0x9e7d9662 case 6 => 0x933eb0bb case 7 => 0x97ffad0c
    case 8 => 0xafb010b1 case 9 => 0xab710d06 case 10 => 0xa6322bdf case 11 => 0xa2f33668
    case 12 => 0xbcb4666d case 13 => 0xb8757bda case 14 => 0xb5365d03 case _ => 0xb1f740b4
  }

  /** Entry `i` of the table is eight clocks of the register loaded with `i`. */
  function Entry(i: bv8): (entry: bv32)
    ensures entry == Clock8(Load32(i))
  {
    hide Clock8;
    var j := i & 0xF;
    match i >> 4
    case 0 => assert 0x00 | j == i; Row0(j)
    case 1 => assert 0x10 | j == i; Row1(j)
    case 2 => assert 0x20 | j == i; Row2(j)
    case 3 => assert 0x30 | j == i; Row3(j)
    case 4 => assert 0x40 | j == i; Row4(j)
    case 5 => assert 0x50 | j == i; Row5(j)
    case 6 => assert 0x60 | j == i; Row6(j)
    case 7 => assert 0x70 | j == i; Row7(j)
    case 8 => assert 0x80 | j == i; Row8(j)
    case 9 => assert 0x90 | j == i; Row9(j)
    case 10 => assert 0xA0 | j == i; RowA(j)
    case 11 => assert 0xB0 | j == i; RowB(j)
    case 12 => assert 0xC0 | j == i; RowC(j)
    case 13 => assert 0xD0 | j == i; RowD(j)
    case 14 => assert 0xE0 | j == i; RowE(j)
    case _ => assert 0xF0 | j == i; RowF(j)
  }
}
