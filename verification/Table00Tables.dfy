// The tables of contrib/gconv/en300-468-tab00.c: the character code table 00 of
// Annex A of ETSI EN 300 468.  0 stands for an empty cell.

module Table00Tables {

  // to_ucs4, 0xa4 to 0xaf.
  function Onea4(b: nat): nat {
    match b
    case 0xa4 => 0x20ac case 0xa5 => 0x00a5 case 0xa7 => 0x00a7 case 0xa8 => 0x00a4 case 0xa9 => 0x2018
    case 0xaa => 0x201c case 0xab => 0x00ab case 0xac => 0x2190 case 0xad => 0x2191 case 0xae => 0x2192
    case 0xaf => 0x2193
    case _ => 0
  }

  // to_ucs4, 0xb0 to 0xbf.
  function Oneb0(b: nat): nat {
    match b
    case 0xb0 => 0x00b0 case 0xb1 => 0x00b1 case 0xb2 => 0x00b2 case 0xb3 => 0x00b3 case 0xb4 => 0x00d7
    case 0xb5 => 0x00b5 case 0xb6 => 0x00b6 case 0xb7 => 0x00b7 case 0xb8 => 0x00f7 case 0xb9 => 0x2019
    case 0xba => 0x201d case 0xbb => 0x00bb case 0xbc => 0x00bc case 0xbd => 0x00bd case 0xbe => 0x00be
    case 0xbf => 0x00bf
    case _ => 0
  }

  // to_ucs4, 0xd0 to 0xdf.
  function Oned0(b: nat): nat {
    match b
    case 0xd0 => 0x2014 case 0xd1 => 0x00b9 case 0xd2 => 0x00ae case 0xd3 => 0x00a9 case 0xd4 => 0x2122
    case 0xd5 => 0x266a case 0xd6 => 0x00ac case 0xd7 => 0x00a6 case 0xdc => 0x215b case 0xdd => 0x215c
    case 0xde => 0x215d case 0xdf => 0x215e
    case _ => 0
  }

  // to_ucs4, 0xe0 to 0xef.
  function Onee0(b: nat): nat {
    match b
    case 0xe0 => 0x2126 case 0xe1 => 0x00c6 case 0xe2 => 0x00d0 case 0xe3 => 0x00aa case 0xe4 => 0x0126
    case 0xe6 => 0x0132 case 0xe7 => 0x013f case 0xe8 => 0x0141 case 0xe9 => 0x00d8 case 0xea => 0x0152
    case 0xeb => 0x00ba case 0xec => 0x00de case 0xed => 0x0166 case 0xee => 0x014a case 0xef => 0x0149
    case _ => 0
  }

  // to_ucs4, 0xf0 to 0xff.
  function Onef0(b: nat): nat {
    match b
    case 0xf0 => 0x0138 case 0xf1 => 0x00e6 case 0xf2 => 0x0111 case 0xf3 => 0x00f0 case 0xf4 => 0x0127
    case 0xf5 => 0x0131 case 0xf6 => 0x0133 case 0xf7 => 0x0140 case 0xf8 => 0x0142 case 0xf9 => 0x00f8
    case 0xfa => 0x0153 case 0xfb => 0x00df case 0xfc => 0x00fe case 0xfd => 0x0167 case 0xfe => 0x014b
    case 0xff => 0x00ad
    case _ => 0
  }

  function ToUcs4(b: nat): nat {
    if b < 0xa4 then b
    else if b < 0xb0 then Onea4(b)
    else if b < 0xc0 then Oneb0(b)
    else if b < 0xd0 then 0
    else if b < 0xe0 then Oned0(b)
    else if b < 0xf0 then Onee0(b)
    else Onef0(b)
  }

  // to_ucs4_comb, row 0xc1.
  function Combc1(b: nat): nat {
    match b
    case 0x41 => 0x00c0 case 0x45 => 0x00c8 case 0x49 => 0x00cc case 0x4f => 0x00d2 case 0x55 => 0x00d9
    case 0x61 => 0x00e0 case 0x65 => 0x00e8 case 0x69 => 0x00ec case 0x6f => 0x00f2 case 0x75 => 0x00f9
    case _ => 0
  }

  // to_ucs4_comb, row 0xc2.
  function Combc2(b: nat): nat {
    match b
    case 0x20 => 0x00b4 case 0x41 => 0x00c1 case 0x43 => 0x0106 case 0x45 => 0x00c9 case 0x49 => 0x00cd
    case 0x4c => 0x0139 case 0x4e => 0x0143 case 0x4f => 0x00d3 case 0x52 => 0x0154 case 0x53 => 0x015a
    case 0x55 => 0x00da case 0x59 => 0x00dd case 0x5a => 0x0179 case 0x61 => 0x00e1 case 0x63 => 0x0107
    case 0x65 => 0x00e9 case 0x69 => 0x00ed case 0x6c => 0x013a case 0x6e => 0x0144 case 0x6f => 0x00f3
    case 0x72 => 0x0155 case 0x73 => 0x015b case 0x75 => 0x00fa case 0x79 => 0x00fd case 0x7a => 0x017a
    case _ => 0
  }

  // to_ucs4_comb, row 0xc3.
  function Combc3(b: nat): nat {
    match b
    case 0x41 => 0x00c2 case 0x43 => 0x0108 case 0x45 => 0x00ca case 0x47 => 0x011c case 0x48 => 0x0124
    case 0x49 => 0x00ce case 0x4a => 0x0134 case 0x4f => 0x00d4 case 0x53 => 0x015c case 0x55 => 0x00db
    case 0x57 => 0x0174 case 0x59 => 0x0176 case 0x61 => 0x00e2 case 0x63 => 0x0109 case 0x65 => 0x00ea
    case 0x67 => 0x011d case 0x68 => 0x0125 case 0x69 => 0x00ee case 0x6a => 0x0135 case 0x6f => 0x00f4
    case 0x73 => 0x015d case 0x75 => 0x00fb case 0x77 => 0x0175 case 0x79 => 0x0177
    case _ => 0
  }

  // to_ucs4_comb, row 0xc4.
  function Combc4(b: nat): nat {
    match b
    case 0x41 => 0x00c3 case 0x49 => 0x0128 case 0x4e => 0x00d1 case 0x4f => 0x00d5 case 0x55 => 0x0168
    case 0x61 => 0x00e3 case 0x69 => 0x0129 case 0x6e => 0x00f1 case 0x6f => 0x00f5 case 0x75 => 0x0169
    case _ => 0
  }

  // to_ucs4_comb, row 0xc5.
  function Combc5(b: nat): nat {
    match b
    case 0x20 => 0x00af case 0x41 => 0x0100 case 0x45 => 0x0112 case 0x49 => 0x012a case 0x4f => 0x014c
    case 0x55 => 0x016a case 0x61 => 0x0101 case 0x65 => 0x0113 case 0x69 => 0x012b case 0x6f => 0x014d
    case 0x75 => 0x016b
    case _ => 0
  }

  // to_ucs4_comb, row 0xc6.
  function Combc6(b: nat): nat {
    match b
    case 0x20 => 0x02d8 case 0x41 => 0x0102 case 0x47 => 0x011e case 0x55 => 0x016c case 0x61 => 0x0103
    case 0x67 => 0x011f case 0x75 => 0x016d
    case _ => 0
  }

  // to_ucs4_comb, row 0xc7.
  function Combc7(b: nat): nat {
    match b
    case 0x20 => 0x02d9 case 0x43 => 0x010a case 0x45 => 0x0116 case 0x47 => 0x0120 case 0x49 => 0x0130
    case 0x5a => 0x017b case 0x63 => 0x010b case 0x65 => 0x0117 case 0x67 => 0x0121 case 0x7a => 0x017c
    case _ => 0
  }

  // to_ucs4_comb, row 0xc8.
  function Combc8(b: nat): nat {
    match b
    case 0x20 => 0x00a8 case 0x41 => 0x00c4 case 0x45 => 0x00cb case 0x49 => 0x00cf case 0x4f => 0x00d6
    case 0x55 => 0x00dc case 0x59 => 0x0178 case 0x61 => 0x00e4 case 0x65 => 0x00eb case 0x69 => 0x00ef
    case 0x6f => 0x00f6 case 0x75 => 0x00fc case 0x79 => 0x00ff
    case _ => 0
  }

  // to_ucs4_comb, row 0xca.
  function Combca(b: nat): nat {
    match b
    case 0x20 => 0x02da case 0x41 => 0x00c5 case 0x55 => 0x016e case 0x61 => 0x00e5 case 0x75 => 0x016f
    case _ => 0
  }

  // to_ucs4_comb, row 0xcb.
  function Combcb(b: nat): nat {
    match b
    case 0x20 => 0x00b8 case 0x43 => 0x00c7 case 0x47 => 0x0122 case 0x4b => 0x0136 case 0x4c => 0x013b
    case 0x4e => 0x0145 case 0x52 => 0x0156 case 0x53 => 0x015e case 0x54 => 0x0162 case 0x63 => 0x00e7
    case 0x67 => 0x0123 case 0x6b => 0x0137 case 0x6c => 0x013c case 0x6e => 0x0146 case 0x72 => 0x0157
    case 0x73 => 0x015f case 0x74 => 0x0163
    case _ => 0
  }

  // to_ucs4_comb, row 0xcd.
  function Combcd(b: nat): nat {
    match b
    case 0x20 => 0x02dd case 0x4f => 0x0150 case 0x55 => 0x0170 case 0x6f => 0x0151 case 0x75 => 0x0171
    case _ => 0
  }

  // to_ucs4_comb, row 0xce.
  function Combce(b: nat): nat {
    match b
    case 0x20 => 0x02db case 0x41 => 0x0104 case 0x45 => 0x0118 case 0x49 => 0x012e case 0x55 => 0x0172
    case 0x61 => 0x0105 case 0x65 => 0x0119 case 0x69 => 0x012f case 0x75 => 0x0173
    case _ => 0
  }

  // to_ucs4_comb, row 0xcf.
  function Combcf(b: nat): nat {
    match b
    case 0x20 => 0x02c7 case 0x43 => 0x010c case 0x44 => 0x010e case 0x45 => 0x011a case 0x4c => 0x013d
    case 0x4e => 0x0147 case 0x52 => 0x0158 case 0x53 => 0x0160 case 0x54 => 0x0164 case 0x5a => 0x017d
    case 0x63 => 0x010d case 0x64 => 0x010f case 0x65 => 0x011b case 0x6c => 0x013e case 0x6e => 0x0148
    case 0x72 => 0x0159 case 0x73 => 0x0161 case 0x74 => 0x0165 case 0x7a => 0x017e
    case _ => 0
  }

  function ToUcs4Comb(b0: nat, b1: nat): nat {
    match b0
    case 0xc1 => Combc1(b1)
    case 0xc2 => Combc2(b1)
    case 0xc3 => Combc3(b1)
    case 0xc4 => Combc4(b1)
    case 0xc5 => Combc5(b1)
    case 0xc6 => Combc6(b1)
    case 0xc7 => Combc7(b1)
    case 0xc8 => Combc8(b1)
    case 0xca => Combca(b1)
    case 0xcb => Combcb(b1)
    case 0xcd => Combcd(b1)
    case 0xce => Combce(b1)
    case 0xcf => Combcf(b1)
    case _ => 0
  }

  // from_ucs4, 0x0a4 to 0x0bf; a cell is its two bytes.
  function Froma4(ch: nat): nat {
    match ch
    case 0x0a4 => 0xa800 case 0x0a5 => 0xa500 case 0x0a6 => 0xd700 case 0x0a7 => 0xa700 case 0x0a8 => 0xc820
    case 0x0a9 => 0xd300 case 0x0aa => 0xe300 case 0x0ab => 0xab00 case 0x0ac => 0xd600 case 0x0ad => 0xff00
    case 0x0ae => 0xd200 case 0x0af => 0xc520 case 0x0b0 => 0xb000 case 0x0b1 => 0xb100 case 0x0b2 => 0xb200
    case 0x0b3 => 0xb300 case 0x0b4 => 0xc220 case 0x0b5 => 0xb500 case 0x0b6 => 0xb600 case 0x0b7 => 0xb700
    case 0x0b8 => 0xcb20 case 0x0b9 => 0xd100 case 0x0ba => 0xeb00 case 0x0bb => 0xbb00 case 0x0bc => 0xbc00
    case 0x0bd => 0xbd00 case 0x0be => 0xbe00 case 0x0bf => 0xbf00
    case _ => 0
  }

  // from_ucs4, 0x0c0 to 0x0df; a cell is its two bytes.
  function Fromc0(ch: nat): nat {
    match ch
    case 0x0c0 => 0xc141 case 0x0c1 => 0xc241 case 0x0c2 => 0xc341 case 0x0c3 => 0xc441 case 0x0c4 => 0xc841
    case 0x0c5 => 0xca41 case 0x0c6 => 0xe100 case 0x0c7 => 0xcb43 case 0x0c8 => 0xc145 case 0x0c9 => 0xc245
    case 0x0ca => 0xc345 case 0x0cb => 0xc845 case 0x0cc => 0xc149 case 0x0cd => 0xc249 case 0x0ce => 0xc349
    case 0x0cf => 0xc849 case 0x0d0 => 0xe200 case 0x0d1 => 0xc44e case 0x0d2 => 0xc14f case 0x0d3 => 0xc24f
    case 0x0d4 => 0xc34f case 0x0d5 => 0xc44f case 0x0d6 => 0xc84f case 0x0d7 => 0xb400 case 0x0d8 => 0xe900
    case 0x0d9 => 0xc155 case 0x0da => 0xc255 case 0x0db => 0xc355 case 0x0dc => 0xc855 case 0x0dd => 0xc259
    case 0x0de => 0xec00 case 0x0df => 0xfb00
    case _ => 0
  }

  // from_ucs4, 0x0e0 to 0x0ff; a cell is its two bytes.
  function Frome0(ch: nat): nat {
    match ch
    case 0x0e0 => 0xc161 case 0x0e1 => 0xc261 case 0x0e2 => 0xc361 case 0x0e3 => 0xc461 case 0x0e4 => 0xc861
    case 0x0e5 => 0xca61 case 0x0e6 => 0xf100 case 0x0e7 => 0xcb63 case 0x0e8 => 0xc165 case 0x0e9 => 0xc265
    case 0x0ea => 0xc365 case 0x0eb => 0xc865 case 0x0ec => 0xc169 case 0x0ed => 0xc269 case 0x0ee => 0xc369
    case 0x0ef => 0xc869 case 0x0f0 => 0xf300 case 0x0f1 => 0xc46e case 0x0f2 => 0xc16f case 0x0f3 => 0xc26f
    case 0x0f4 => 0xc36f case 0x0f5 => 0xc46f case 0x0f6 => 0xc86f case 0x0f7 => 0xb800 case 0x0f8 => 0xf900
    case 0x0f9 => 0xc175 case 0x0fa => 0xc275 case 0x0fb => 0xc375 case 0x0fc => 0xc875 case 0x0fd => 0xc279
    case 0x0fe => 0xfc00 case 0x0ff => 0xc879
    case _ => 0
  }

  // from_ucs4, 0x100 to 0x11f; a cell is its two bytes.
  function From100(ch: nat): nat {
    match ch
    case 0x100 => 0xc541 case 0x101 => 0xc561 case 0x102 => 0xc641 case 0x103 => 0xc661 case 0x104 => 0xce41
    case 0x105 => 0xce61 case 0x106 => 0xc243 case 0x107 => 0xc263 case 0x108 => 0xc343 case 0x109 => 0xc363
    case 0x10a => 0xc743 case 0x10b => 0xc763 case 0x10c => 0xcf43 case 0x10d => 0xcf63 case 0x10e => 0xcf44
    case 0x10f => 0xcf64 case 0x111 => 0xf200 case 0x112 => 0xc545 case 0x113 => 0xc565 case 0x116 => 0xc745
    case 0x117 => 0xc765 case 0x118 => 0xce45 case 0x119 => 0xce65 case 0x11a => 0xcf45 case 0x11b => 0xcf65
    case 0x11c => 0xc347 case 0x11d => 0xc367 case 0x11e => 0xc647 case 0x11f => 0xc667
    case _ => 0
  }

  // from_ucs4, 0x120 to 0x13f; a cell is its two bytes.
  function From120(ch: nat): nat {
    match ch
    case 0x120 => 0xc747 case 0x121 => 0xc767 case 0x122 => 0xcb47 case 0x123 => 0xcb67 case 0x124 => 0xc348
    case 0x125 => 0xc368 case 0x126 => 0xe400 case 0x127 => 0xf400 case 0x128 => 0xc449 case 0x129 => 0xc469
    case 0x12a => 0xc549 case 0x12b => 0xc569 case 0x12e => 0xce49 case 0x12f => 0xce69 case 0x130 => 0xc749
    case 0x131 => 0xf500 case 0x132 => 0xe600 case 0x133 => 0xf600 case 0x134 => 0xc34a case 0x135 => 0xc36a
    case 0x136 => 0xcb4b case 0x137 => 0xcb6b case 0x138 => 0xf000 case 0x139 => 0xc24c case 0x13a => 0xc26c
    case 0x13b => 0xcb4c case 0x13c => 0xcb6c case 0x13d => 0xcf4c case 0x13e => 0xcf6c case 0x13f => 0xe700
    case _ => 0
  }

  // from_ucs4, 0x140 to 0x15f; a cell is its two bytes.
  function From140(ch: nat): nat {
    match ch
    case 0x140 => 0xf700 case 0x141 => 0xe800 case 0x142 => 0xf800 case 0x143 => 0xc24e case 0x144 => 0xc26e
    case 0x145 => 0xcb4e case 0x146 => 0xcb6e case 0x147 => 0xcf4e case 0x148 => 0xcf6e case 0x149 => 0xef00
    case 0x14a => 0xee00 case 0x14b => 0xfe00 case 0x14c => 0xc54f case 0x14d => 0xc56f case 0x150 => 0xcd4f
    case 0x151 => 0xcd6f case 0x152 => 0xea00 case 0x153 => 0xfa00 case 0x154 => 0xc252 case 0x155 => 0xc272
    case 0x156 => 0xcb52 case 0x157 => 0xcb72 case 0x158 => 0xcf52 case 0x159 => 0xcf72 case 0x15a => 0xc253
    case 0x15b => 0xc273 case 0x15c => 0xc353 case 0x15d => 0xc373 case 0x15e => 0xcb53 case 0x15f => 0xcb73
    case _ => 0
  }

  // from_ucs4, 0x160 to 0x17e; a cell is its two bytes.
  function From160(ch: nat): nat {
    match ch
    case 0x160 => 0xcf53 case 0x161 => 0xcf73 case 0x162 => 0xcb54 case 0x163 => 0xcb74 case 0x164 => 0xcf54
    case 0x165 => 0xcf74 case 0x166 => 0xed00 case 0x167 => 0xfd00 case 0x168 => 0xc455 case 0x169 => 0xc475
    case 0x16a => 0xc555 case 0x16b => 0xc575 case 0x16c => 0xc655 case 0x16d => 0xc675 case 0x16e => 0xca55
    case 0x16f => 0xca75 case 0x170 => 0xcd55 case 0x171 => 0xcd75 case 0x172 => 0xce55 case 0x173 => 0xce75
    case 0x174 => 0xc357 case 0x175 => 0xc377 case 0x176 => 0xc359 case 0x177 => 0xc379 case 0x178 => 0xc859
    case 0x179 => 0xc25a case 0x17a => 0xc27a case 0x17b => 0xc75a case 0x17c => 0xc77a case 0x17d => 0xcf5a
    case 0x17e => 0xcf7a
    case _ => 0
  }

  function FromUcs4(ch: nat): nat {
    if ch < 0xa4 then ch * 256
    else if ch < 0xc0 then Froma4(ch)
    else if ch < 0xe0 then Fromc0(ch)
    else if ch < 0x100 then Frome0(ch)
    else if ch < 0x120 then From100(ch)
    else if ch < 0x140 then From120(ch)
    else if ch < 0x160 then From140(ch)
    else From160(ch)
  }

  // The switch for the other characters.
  function Special(ch: nat): nat {
    match ch
    case 0x02c7 => 0xcf20 case 0x02d8 => 0xc620 case 0x02d9 => 0xc720 case 0x02da => 0xca20
    case 0x02db => 0xce20 case 0x02dd => 0xcd20 case 0x2014 => 0xd000 case 0x2018 => 0xa900
    case 0x2019 => 0xb900 case 0x201c => 0xaa00 case 0x201d => 0xba00 case 0x2122 => 0xd400
    case 0x2126 => 0xe000 case 0x215b => 0xdc00 case 0x215c => 0xdd00 case 0x215d => 0xde00
    case 0x215e => 0xdf00 case 0x2190 => 0xac00 case 0x2191 => 0xad00 case 0x2192 => 0xae00
    case 0x2193 => 0xaf00 case 0x20ac => 0xa400 case 0x266a => 0xd500
    case _ => 0
  }
}
