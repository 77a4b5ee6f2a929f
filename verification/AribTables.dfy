// The constant tables of contrib/gconv/arib-std-b24.c that relate codes of the
// sets EXTRA_SYMBOLS and KANJI rows 0x75, 0x76 and 0x7a..0x7e to code points.
// One function a row; a column is the second byte minus 0x20, and 0 stands for
// an empty cell.

module AribTables {

  // extra_kanji, row 85.
  function ExtraKanji75(c: nat): nat {
    match c
    case 1 => 0x3402 case 2 => 0x20158 case 3 => 0x4efd case 4 => 0x4eff case 5 => 0x4f9a case 6 => 0x4fc9
    case 7 => 0x509c case 8 => 0x511e case 9 => 0x51bc case 10 => 0x351f case 11 => 0x5307 case 12 => 0x5361
    case 13 => 0x536c case 14 => 0x8a79 case 15 => 0x20bb7 case 16 => 0x544d case 17 => 0x5496
    case 18 => 0x549c case 19 => 0x54a9 case 20 => 0x550e case 21 => 0x554a case 22 => 0x5672
    case 23 => 0x56e4 case 24 => 0x5733 case 25 => 0x5734 case 26 => 0xfa10 case 27 => 0x5880
    case 28 => 0x59e4 case 29 => 0x5a23 case 30 => 0x5a55 case 31 => 0x5bec case 32 => 0xfa11
    case 33 => 0x37e2 case 34 => 0x5eac case 35 => 0x5f34 case 36 => 0x5f45 case 37 => 0x5fb7
    case 38 => 0x6017 case 39 => 0xfa6b case 40 => 0x6130 case 41 => 0x6624 case 42 => 0x66c8
    case 43 => 0x66d9 case 44 => 0x66fa case 45 => 0x66fb case 46 => 0x6852 case 47 => 0x9fc4
    case 48 => 0x6911 case 49 => 0x693b case 50 => 0x6a45 case 51 => 0x6a91 case 52 => 0x6adb
    case 53 => 0x233cc case 54 => 0x233fe case 55 => 0x235c4 case 56 => 0x6bf1 case 57 => 0x6ce0
    case 58 => 0x6d2e case 59 => 0xfa45 case 60 => 0x6dbf case 61 => 0x6dca case 62 => 0x6df8
    case 63 => 0xfa46 case 64 => 0x6f5e case 65 => 0x6ff9 case 66 => 0x7064 case 67 => 0xfa6c
    case 68 => 0x242ee case 69 => 0x7147 case 70 => 0x71c1 case 71 => 0x7200 case 72 => 0x739f
    case 73 => 0x73a8 case 74 => 0x73c9 case 75 => 0x73d6 case 76 => 0x741b case 77 => 0x7421
    case 78 => 0xfa4a case 79 => 0x7426 case 80 => 0x742a case 81 => 0x742c case 82 => 0x7439
    case 83 => 0x744b case 84 => 0x3eda case 85 => 0x7575 case 86 => 0x7581 case 87 => 0x7772
    case 88 => 0x4093 case 89 => 0x78c8 case 90 => 0x78e0 case 91 => 0x7947 case 92 => 0x79ae
    case 93 => 0x9fc6 case 94 => 0x4103
    case _ => 0
  }

  // extra_kanji, row 86.
  function ExtraKanji76(c: nat): nat {
    match c
    case 1 => 0x9fc5 case 2 => 0x79da case 3 => 0x7a1e case 4 => 0x7b7f case 5 => 0x7c31 case 6 => 0x4264
    case 7 => 0x7d8b case 8 => 0x7fa1 case 9 => 0x8118 case 10 => 0x813a case 11 => 0xfa6d case 12 => 0x82ae
    case 13 => 0x845b case 14 => 0x84dc case 15 => 0x84ec case 16 => 0x8559 case 17 => 0x85ce
    case 18 => 0x8755 case 19 => 0x87ec case 20 => 0x880b case 21 => 0x88f5 case 22 => 0x2ec6
    case 23 => 0x8af6 case 24 => 0x8dce case 25 => 0x8fbb case 26 => 0x8ff6 case 27 => 0x90dd
    case 28 => 0x9127 case 29 => 0x912d case 30 => 0x91b2 case 31 => 0x9233 case 32 => 0x9288
    case 33 => 0x9321 case 34 => 0x9348 case 35 => 0x9592 case 36 => 0x96de case 37 => 0x9903
    case 38 => 0x9940 case 39 => 0x9ad9 case 40 => 0x9bd6 case 41 => 0x9dd7 case 42 => 0x9eb4
    case 43 => 0x9eb5
    case _ => 0
  }

  // extra_symbols, row 90.
  function ExtraSymbols7a(c: nat): nat {
    match c
    case 1 => 0x26cc case 2 => 0x26cd case 3 => 0x2757 case 4 => 0x26cf case 5 => 0x26d0 case 6 => 0x26d1
    case 8 => 0x26d2 case 9 => 0x26d5 case 10 => 0x26d3 case 11 => 0x26d4 case 16 => 0x1f17f
    case 17 => 0x1f18a case 20 => 0x26d6 case 21 => 0x26d7 case 22 => 0x26d8 case 23 => 0x26d9
    case 24 => 0x26da case 25 => 0x26db case 26 => 0x26dc case 27 => 0x26dd case 28 => 0x26de
    case 29 => 0x26df case 30 => 0x26e0 case 31 => 0x26e1 case 32 => 0x2b55 case 33 => 0x3248
    case 34 => 0x3249 case 35 => 0x324a case 36 => 0x324b case 37 => 0x324c case 38 => 0x324d
    case 39 => 0x324e case 40 => 0x324f case 45 => 0x2491 case 46 => 0x2492 case 47 => 0x2493
    case 48 => 0x1f14a case 49 => 0x1f14c case 50 => 0x1f13f case 51 => 0x1f146 case 52 => 0x1f14b
    case 53 => 0x1f210 case 54 => 0x1f211 case 55 => 0x1f212 case 56 => 0x1f213 case 57 => 0x1f142
    case 58 => 0x1f214 case 59 => 0x1f215 case 60 => 0x1f216 case 61 => 0x1f14d case 62 => 0x1f131
    case 63 => 0x1f13d case 64 => 0x2b1b case 65 => 0x2b24 case 66 => 0x1f217 case 67 => 0x1f218
    case 68 => 0x1f219 case 69 => 0x1f21a case 70 => 0x1f21b case 71 => 0x26bf case 72 => 0x1f21c
    case 73 => 0x1f21d case 74 => 0x1f21e case 75 => 0x1f21f case 76 => 0x1f220 case 77 => 0x1f221
    case 78 => 0x1f222 case 79 => 0x1f223 case 80 => 0x1f224 case 81 => 0x1f225 case 82 => 0x1f14e
    case 83 => 0x3299 case 84 => 0x1f200
    case _ => 0
  }

  // extra_symbols, row 91.
  function ExtraSymbols7b(c: nat): nat {
    match c
    case 1 => 0x26e3 case 2 => 0x2b56 case 3 => 0x2b57 case 4 => 0x2b58 case 5 => 0x2b59 case 6 => 0x2613
    case 7 => 0x328b case 8 => 0x3012 case 9 => 0x26e8 case 10 => 0x3246 case 11 => 0x3245 case 12 => 0x26e9
    case 13 => 0xfd6 case 14 => 0x26ea case 15 => 0x26eb case 16 => 0x26ec case 17 => 0x2668 case 18 => 0x26ed
    case 19 => 0x26ee case 20 => 0x26ef case 21 => 0x2693 case 22 => 0x2708 case 23 => 0x26f0
    case 24 => 0x26f1 case 25 => 0x26f2 case 26 => 0x26f3 case 27 => 0x26f4 case 28 => 0x26f5
    case 29 => 0x1f157 case 30 => 0x24b9 case 31 => 0x24c8 case 32 => 0x26f6 case 33 => 0x1f15f
    case 34 => 0x1f18b case 35 => 0x1f18d case 36 => 0x1f18c case 37 => 0x1f179 case 38 => 0x26f7
    case 39 => 0x26f8 case 40 => 0x26f9 case 41 => 0x26fa case 42 => 0x1f17b case 43 => 0x260e
    case 44 => 0x26fb case 45 => 0x26fc case 46 => 0x26fd case 47 => 0x26fe case 48 => 0x1f17c
    case 49 => 0x26ff
    case _ => 0
  }

  // extra_symbols, row 92.
  function ExtraSymbols7c(c: nat): nat {
    match c
    case 1 => 0x27a1 case 2 => 0x2b05 case 3 => 0x2b06 case 4 => 0x2b07 case 5 => 0x2b2f case 6 => 0x2b2e
    case 7 => 0x5e74 case 8 => 0x6708 case 9 => 0x65e5 case 10 => 0x5186 case 11 => 0x33a1 case 12 => 0x33a5
    case 13 => 0x339d case 14 => 0x33a0 case 15 => 0x33a4 case 16 => 0x1f100 case 17 => 0x2488
    case 18 => 0x2489 case 19 => 0x248a case 20 => 0x248b case 21 => 0x248c case 22 => 0x248d
    case 23 => 0x248e case 24 => 0x248f case 25 => 0x2490 case 26 => 0xe290 case 27 => 0xe291
    case 28 => 0xe292 case 29 => 0xe293 case 30 => 0xe294 case 31 => 0xe295 case 32 => 0x1f101
    case 33 => 0x1f102 case 34 => 0x1f103 case 35 => 0x1f104 case 36 => 0x1f105 case 37 => 0x1f106
    case 38 => 0x1f107 case 39 => 0x1f108 case 40 => 0x1f109 case 41 => 0x1f10a case 42 => 0x3233
    case 43 => 0x3236 case 44 => 0x3232 case 45 => 0x3231 case 46 => 0x3239 case 47 => 0x3244
    case 48 => 0x25b6 case 49 => 0x25c0 case 50 => 0x3016 case 51 => 0x3017 case 52 => 0x27d0 case 53 => 0xb2
    case 54 => 0xb3 case 55 => 0x1f12d case 56 => 0xe2a5 case 57 => 0xe2a6 case 58 => 0xe2a7 case 59 => 0xe2a8
    case 60 => 0xe2a9 case 61 => 0xe2aa case 62 => 0xe2ab case 63 => 0xe2ac case 64 => 0xe2ad
    case 65 => 0xe2ae case 66 => 0xe2af case 67 => 0xe2b0 case 68 => 0xe2b1 case 69 => 0xe2b2
    case 70 => 0xe2b3 case 71 => 0xe2b4 case 72 => 0xe2b5 case 73 => 0xe2b6 case 74 => 0xe2b7
    case 75 => 0xe2b8 case 76 => 0xe2b9 case 77 => 0xe2ba case 78 => 0xe2bb case 79 => 0xe2bc
    case 80 => 0xe2bd case 81 => 0xe2be case 82 => 0xe2bf case 83 => 0xe2c0 case 84 => 0xe2c1
    case 85 => 0xe2c2 case 86 => 0x1f12c case 87 => 0x1f12b case 88 => 0x3247 case 89 => 0x1f190
    case 90 => 0x1f226 case 91 => 0x213b
    case _ => 0
  }

  // extra_symbols, row 93.
  function ExtraSymbols7d(c: nat): nat {
    match c
    case 1 => 0x322a case 2 => 0x322b case 3 => 0x322c case 4 => 0x322d case 5 => 0x322e case 6 => 0x322f
    case 7 => 0x3230 case 8 => 0x3237 case 9 => 0x337e case 10 => 0x337d case 11 => 0x337c case 12 => 0x337b
    case 13 => 0x2116 case 14 => 0x2121 case 15 => 0x3036 case 16 => 0x26be case 17 => 0x1f240
    case 18 => 0x1f241 case 19 => 0x1f242 case 20 => 0x1f243 case 21 => 0x1f244 case 22 => 0x1f245
    case 23 => 0x1f246 case 24 => 0x1f247 case 25 => 0x1f248 case 26 => 0x1f12a case 27 => 0x1f227
    case 28 => 0x1f228 case 29 => 0x1f229 case 30 => 0x1f214 case 31 => 0x1f22a case 32 => 0x1f22b
    case 33 => 0x1f22c case 34 => 0x1f22d case 35 => 0x1f22e case 36 => 0x1f22f case 37 => 0x1f230
    case 38 => 0x1f231 case 39 => 0x2113 case 40 => 0x338f case 41 => 0x3390 case 42 => 0x33ca
    case 43 => 0x339e case 44 => 0x33a2 case 45 => 0x3371 case 48 => 0xbd case 49 => 0x2189 case 50 => 0x2153
    case 51 => 0x2154 case 52 => 0xbc case 53 => 0xbe case 54 => 0x2155 case 55 => 0x2156 case 56 => 0x2157
    case 57 => 0x2158 case 58 => 0x2159 case 59 => 0x215a case 60 => 0x2150 case 61 => 0x215b
    case 62 => 0x2151 case 63 => 0x2152 case 64 => 0x2600 case 65 => 0x2601 case 66 => 0x2602
    case 67 => 0x2603 case 68 => 0x2616 case 69 => 0x2617 case 70 => 0x26c9 case 71 => 0x26ca
    case 72 => 0x2666 case 73 => 0x2665 case 74 => 0x2663 case 75 => 0x2660 case 76 => 0x26cb
    case 77 => 0x2a00 case 78 => 0x203c case 79 => 0x2049 case 80 => 0x26c5 case 81 => 0x2614
    case 82 => 0x26c6 case 83 => 0x26c4 case 84 => 0x26c7 case 85 => 0x26a1 case 86 => 0x26c8
    case 88 => 0x269e case 89 => 0x269f case 90 => 0x266c case 91 => 0x260e
    case _ => 0
  }

  // extra_symbols, row 94.
  function ExtraSymbols7e(c: nat): nat {
    match c
    case 1 => 0x2160 case 2 => 0x2161 case 3 => 0x2162 case 4 => 0x2163 case 5 => 0x2164 case 6 => 0x2165
    case 7 => 0x2166 case 8 => 0x2167 case 9 => 0x2168 case 10 => 0x2169 case 11 => 0x216a case 12 => 0x216b
    case 13 => 0x2470 case 14 => 0x2471 case 15 => 0x2472 case 16 => 0x2473 case 17 => 0x2474
    case 18 => 0x2475 case 19 => 0x2476 case 20 => 0x2477 case 21 => 0x2478 case 22 => 0x2479
    case 23 => 0x247a case 24 => 0x247b case 25 => 0x247c case 26 => 0x247d case 27 => 0x247e
    case 28 => 0x247f case 29 => 0x3251 case 30 => 0x3252 case 31 => 0x3253 case 32 => 0x3254
    case 33 => 0x1f110 case 34 => 0x1f111 case 35 => 0x1f112 case 36 => 0x1f113 case 37 => 0x1f114
    case 38 => 0x1f115 case 39 => 0x1f116 case 40 => 0x1f117 case 41 => 0x1f118 case 42 => 0x1f119
    case 43 => 0x1f11a case 44 => 0x1f11b case 45 => 0x1f11c case 46 => 0x1f11d case 47 => 0x1f11e
    case 48 => 0x1f11f case 49 => 0x1f120 case 50 => 0x1f121 case 51 => 0x1f122 case 52 => 0x1f123
    case 53 => 0x1f124 case 54 => 0x1f125 case 55 => 0x1f126 case 56 => 0x1f127 case 57 => 0x1f128
    case 58 => 0x1f129 case 59 => 0x3255 case 60 => 0x3256 case 61 => 0x3257 case 62 => 0x3258
    case 63 => 0x3259 case 64 => 0x325a case 65 => 0x2460 case 66 => 0x2461 case 67 => 0x2462
    case 68 => 0x2463 case 69 => 0x2464 case 70 => 0x2465 case 71 => 0x2466 case 72 => 0x2467
    case 73 => 0x2468 case 74 => 0x2469 case 75 => 0x246a case 76 => 0x246b case 77 => 0x246c
    case 78 => 0x246d case 79 => 0x246e case 80 => 0x246f case 81 => 0x2776 case 82 => 0x2777
    case 83 => 0x2778 case 84 => 0x2779 case 85 => 0x277a case 86 => 0x277b case 87 => 0x277c
    case 88 => 0x277d case 89 => 0x277e case 90 => 0x277f case 91 => 0x24eb case 92 => 0x24ec
    case 93 => 0x325b
    case _ => 0
  }

  // ucs4_to_extsym: the code point listed with code 0x7520 + column.
  function Extsym75(c: nat): nat {
    match c
    case 1 => 0x3402 case 2 => 0x20158 case 3 => 0x4efd case 4 => 0x4eff case 5 => 0x4f9a case 6 => 0x4fc9
    case 7 => 0x509c case 8 => 0x511e case 9 => 0x51bc case 10 => 0x351f case 11 => 0x5307 case 12 => 0x5361
    case 13 => 0x536c case 14 => 0x8a79 case 15 => 0x20bb7 case 16 => 0x544d case 17 => 0x5496
    case 18 => 0x549c case 19 => 0x54a9 case 20 => 0x550e case 21 => 0x554a case 22 => 0x5672
    case 23 => 0x56e4 case 24 => 0x5733 case 25 => 0x5734 case 26 => 0xfa10 case 27 => 0x5880
    case 28 => 0x59e4 case 29 => 0x5a23 case 30 => 0x5a55 case 31 => 0x5bec case 32 => 0xfa11
    case 33 => 0x37e2 case 34 => 0x5eac case 35 => 0x5f34 case 36 => 0x5f45 case 37 => 0x5fb7
    case 38 => 0x6017 case 39 => 0xfa6b case 40 => 0x6130 case 41 => 0x6624 case 42 => 0x66c8
    case 43 => 0x66d9 case 44 => 0x66fa case 45 => 0x66fb case 46 => 0x6852 case 47 => 0x9fc4
    case 48 => 0x6911 case 49 => 0x693b case 50 => 0x6a45 case 51 => 0x6a91 case 52 => 0x6adb
    case 53 => 0x233cc case 54 => 0x233fe case 55 => 0x235c4 case 56 => 0x6bf1 case 57 => 0x6ce0
    case 58 => 0x6d2e case 59 => 0xfa45 case 60 => 0x6dbf case 61 => 0x6dca case 62 => 0x6df8
    case 63 => 0xfa46 case 64 => 0x6f5e case 65 => 0x6ff9 case 66 => 0x7064 case 67 => 0xfa6c
    case 68 => 0x242ee case 69 => 0x7147 case 70 => 0x71c1 case 71 => 0x7200 case 72 => 0x739f
    case 73 => 0x73a8 case 74 => 0x73c9 case 75 => 0x73d6 case 76 => 0x741b case 77 => 0x7421
    case 78 => 0xfa4a case 79 => 0x7426 case 80 => 0x742a case 81 => 0x742c case 82 => 0x7439
    case 83 => 0x744b case 84 => 0x3eda case 85 => 0x7575 case 86 => 0x7581 case 87 => 0x7772
    case 88 => 0x4093 case 89 => 0x78c8 case 90 => 0x78e0 case 91 => 0x7947 case 92 => 0x79ae
    case 93 => 0x9fc6 case 94 => 0x4103
    case _ => 0
  }

  // ucs4_to_extsym: the code point listed with code 0x7620 + column.
  function Extsym76(c: nat): nat {
    match c
    case 1 => 0x9fc5 case 2 => 0x79da case 3 => 0x7a1e case 4 => 0x7b7f case 5 => 0x7c31 case 6 => 0x4264
    case 7 => 0x7d8b case 8 => 0x7fa1 case 9 => 0x8118 case 10 => 0x813a case 11 => 0xfa6d case 12 => 0x82ae
    case 13 => 0x845b case 14 => 0x84dc case 15 => 0x84ec case 16 => 0x8559 case 17 => 0x85ce
    case 18 => 0x8755 case 19 => 0x87ec case 20 => 0x880b case 21 => 0x88f5 case 22 => 0x89d2
    case 23 => 0x8af6 case 24 => 0x8dce case 25 => 0x8fbb case 26 => 0x8ff6 case 27 => 0x90dd
    case 28 => 0x9127 case 29 => 0x912d case 30 => 0x91b2 case 31 => 0x9233 case 32 => 0x9288
    case 33 => 0x9321 case 34 => 0x9348 case 35 => 0x9592 case 36 => 0x96de case 37 => 0x9903
    case 38 => 0x9940 case 39 => 0x9ad9 case 40 => 0x9bd6 case 41 => 0x9dd7 case 42 => 0x9eb4
    case 43 => 0x9eb5
    case _ => 0
  }

  // ucs4_to_extsym: the code point listed with code 0x7a20 + column.
  function Extsym7a(c: nat): nat {
    match c
    case 1 => 0x26cc case 2 => 0x26cd case 3 => 0x2762 case 4 => 0x26cf case 5 => 0x26d0 case 6 => 0x26d1
    case 8 => 0x26d2 case 9 => 0x26d5 case 10 => 0x26d3 case 11 => 0x26d4 case 16 => 0x1f17f
    case 17 => 0x1f18a case 20 => 0x26d6 case 21 => 0x26d7 case 22 => 0x26d8 case 23 => 0x26d9
    case 24 => 0x26da case 25 => 0x26db case 26 => 0x26dc case 27 => 0x26dd case 28 => 0x26de
    case 29 => 0x26df case 30 => 0x26e0 case 31 => 0x26e1 case 32 => 0x2b55 case 33 => 0x3248
    case 34 => 0x3249 case 35 => 0x324a case 36 => 0x324b case 37 => 0x324c case 38 => 0x324d
    case 39 => 0x324e case 40 => 0x324f case 45 => 0x2491 case 46 => 0x2492 case 47 => 0x2493
    case 48 => 0x1f14a case 49 => 0x1f14c case 50 => 0x1f13f case 51 => 0x1f146 case 52 => 0x1f14b
    case 53 => 0x1f210 case 54 => 0x1f211 case 55 => 0x1f212 case 56 => 0x1f213 case 57 => 0x1f142
    case 58 => 0x1f214 case 59 => 0x1f215 case 60 => 0x1f216 case 61 => 0x1f14d case 62 => 0x1f131
    case 63 => 0x1f13d case 64 => 0x2b1b case 65 => 0x2b24 case 66 => 0x1f217 case 67 => 0x1f218
    case 68 => 0x1f219 case 69 => 0x1f21a case 70 => 0x1f21b case 71 => 0x26bf case 72 => 0x1f21c
    case 73 => 0x1f21d case 74 => 0x1f21e case 75 => 0x1f21f case 76 => 0x1f220 case 77 => 0x1f221
    case 78 => 0x1f222 case 79 => 0x1f223 case 80 => 0x1f224 case 81 => 0x1f225 case 82 => 0x1f14e
    case 83 => 0x3299 case 84 => 0x1f200
    case _ => 0
  }

  // ucs4_to_extsym: the code point listed with code 0x7b20 + column.
  function Extsym7b(c: nat): nat {
    match c
    case 1 => 0x26e3 case 2 => 0x2b56 case 3 => 0x2b57 case 4 => 0x2b58 case 5 => 0x2b59 case 6 => 0x2613
    case 7 => 0x328b case 8 => 0x3012 case 9 => 0x26e8 case 10 => 0x3246 case 11 => 0x3245 case 12 => 0x26e9
    case 13 => 0xfd6 case 14 => 0x26ea case 15 => 0x26eb case 16 => 0x26ec case 17 => 0x2668 case 18 => 0x26ed
    case 19 => 0x26ee case 20 => 0x26ef case 21 => 0x2693 case 22 => 0x1f6e7 case 23 => 0x26f0
    case 24 => 0x26f1 case 25 => 0x26f2 case 26 => 0x26f3 case 27 => 0x26f4 case 28 => 0x26f5
    case 29 => 0x1f157 case 30 => 0x24b9 case 31 => 0x24c8 case 32 => 0x26f6 case 33 => 0x1f15f
    case 34 => 0x1f18b case 35 => 0x1f18d case 36 => 0x1f18c case 37 => 0x1f179 case 38 => 0x26f7
    case 39 => 0x26f8 case 40 => 0x26f9 case 41 => 0x26fa case 42 => 0x1f17b case 43 => 0x260e
    case 44 => 0x26fb case 45 => 0x26fc case 46 => 0x26fd case 47 => 0x26fe case 48 => 0x1f17c
    case 49 => 0x26ff
    case _ => 0
  }

  // ucs4_to_extsym: the code point listed with code 0x7c20 + column.
  function Extsym7c(c: nat): nat {
    match c
    case 1 => 0x27a1 case 2 => 0x2b05 case 3 => 0x2b06 case 4 => 0x2b07 case 5 => 0x2b2f case 6 => 0x2b2e
    case 7 => 0x5e74 case 8 => 0x6708 case 9 => 0x65e5 case 10 => 0x5186 case 11 => 0x33a1 case 12 => 0x33a5
    case 13 => 0x339d case 14 => 0x33a0 case 15 => 0x33a4 case 16 => 0x1f100 case 17 => 0x2488
    case 18 => 0x2489 case 19 => 0x248a case 20 => 0x248b case 21 => 0x248c case 22 => 0x248d
    case 23 => 0x248e case 24 => 0x248f case 25 => 0x2490 case 32 => 0x1f101 case 33 => 0x1f102
    case 34 => 0x1f103 case 35 => 0x1f104 case 36 => 0x1f105 case 37 => 0x1f106 case 38 => 0x1f107
    case 39 => 0x1f108 case 40 => 0x1f109 case 41 => 0x1f10a case 42 => 0x3233 case 43 => 0x3236
    case 44 => 0x3232 case 45 => 0x3231 case 46 => 0x3239 case 47 => 0x3244 case 48 => 0x25b6
    case 49 => 0x25c0 case 50 => 0x3016 case 51 => 0x3017 case 52 => 0x27d0 case 53 => 0xb2 case 54 => 0xb3
    case 55 => 0x1f12d case 86 => 0x1f12c case 87 => 0x1f12b case 88 => 0x3247 case 89 => 0x1f190
    case 90 => 0x1f226 case 91 => 0x213b
    case _ => 0
  }

  // ucs4_to_extsym: the code point listed with code 0x7d20 + column.
  function Extsym7d(c: nat): nat {
    match c
    case 1 => 0x322a case 2 => 0x322b case 3 => 0x322c case 4 => 0x322d case 5 => 0x322e case 6 => 0x322f
    case 7 => 0x3230 case 8 => 0x3237 case 9 => 0x337e case 10 => 0x337d case 11 => 0x337c case 12 => 0x337b
    case 13 => 0x2116 case 14 => 0x2121 case 15 => 0x3036 case 16 => 0x26be case 17 => 0x1f240
    case 18 => 0x1f241 case 19 => 0x1f242 case 20 => 0x1f243 case 21 => 0x1f244 case 22 => 0x1f245
    case 23 => 0x1f246 case 24 => 0x1f247 case 25 => 0x1f248 case 26 => 0x1f12a case 27 => 0x1f227
    case 28 => 0x1f228 case 29 => 0x1f229 case 30 => 0x1f214 case 31 => 0x1f22a case 32 => 0x1f22b
    case 33 => 0x1f22c case 34 => 0x1f22d case 35 => 0x1f22e case 36 => 0x1f22f case 37 => 0x1f230
    case 38 => 0x1f231 case 39 => 0x2113 case 40 => 0x338f case 41 => 0x3390 case 42 => 0x33ca
    case 43 => 0x339e case 44 => 0x33a2 case 45 => 0x3371 case 48 => 0xbd case 49 => 0x2189 case 50 => 0x2153
    case 51 => 0x2154 case 52 => 0xbc case 53 => 0xbe case 54 => 0x2155 case 55 => 0x2156 case 56 => 0x2157
    case 57 => 0x2158 case 58 => 0x2159 case 59 => 0x215a case 60 => 0x2150 case 61 => 0x215b
    case 62 => 0x2151 case 63 => 0x2152 case 64 => 0x2600 case 65 => 0x2601 case 66 => 0x2602
    case 67 => 0x26c4 case 68 => 0x2616 case 69 => 0x2617 case 70 => 0x26c9 case 71 => 0x26ca
    case 72 => 0x2666 case 73 => 0x2665 case 74 => 0x2663 case 75 => 0x2660 case 76 => 0x26cb
    case 77 => 0x2a00 case 78 => 0x203c case 79 => 0x2049 case 80 => 0x26c5 case 81 => 0x2614
    case 82 => 0x26c6 case 83 => 0x2603 case 84 => 0x26c7 case 85 => 0x26a1 case 86 => 0x26c8
    case 88 => 0x269e case 89 => 0x269f case 90 => 0x266c case 91 => 0x260e
    case _ => 0
  }

  // ucs4_to_extsym: the code point listed with code 0x7e20 + column.
  function Extsym7e(c: nat): nat {
    match c
    case 1 => 0x2160 case 2 => 0x2161 case 3 => 0x2162 case 4 => 0x2163 case 5 => 0x2164 case 6 => 0x2165
    case 7 => 0x2166 case 8 => 0x2167 case 9 => 0x2168 case 10 => 0x2169 case 11 => 0x216a case 12 => 0x216b
    case 13 => 0x2470 case 14 => 0x2471 case 15 => 0x2472 case 16 => 0x2473 case 17 => 0x2474
    case 18 => 0x2475 case 19 => 0x2476 case 20 => 0x2477 case 21 => 0x2478 case 22 => 0x2479
    case 23 => 0x247a case 24 => 0x247b case 25 => 0x247c case 26 => 0x247d case 27 => 0x247e
    case 28 => 0x247f case 29 => 0x3251 case 30 => 0x3252 case 31 => 0x3253 case 32 => 0x3254
    case 33 => 0x1f110 case 34 => 0x1f111 case 35 => 0x1f112 case 36 => 0x1f113 case 37 => 0x1f114
    case 38 => 0x1f115 case 39 => 0x1f116 case 40 => 0x1f117 case 41 => 0x1f118 case 42 => 0x1f119
    case 43 => 0x1f11a case 44 => 0x1f11b case 45 => 0x1f11c case 46 => 0x1f11d case 47 => 0x1f11e
    case 48 => 0x1f11f case 49 => 0x1f120 case 50 => 0x1f121 case 51 => 0x1f122 case 52 => 0x1f123
    case 53 => 0x1f124 case 54 => 0x1f125 case 55 => 0x1f126 case 56 => 0x1f127 case 57 => 0x1f128
    case 58 => 0x1f129 case 59 => 0x3255 case 60 => 0x3256 case 61 => 0x3257 case 62 => 0x3258
    case 63 => 0x3259 case 64 => 0x325a case 65 => 0x2460 case 66 => 0x2461 case 67 => 0x2462
    case 68 => 0x2463 case 69 => 0x2464 case 70 => 0x2465 case 71 => 0x2466 case 72 => 0x2467
    case 73 => 0x2468 case 74 => 0x2469 case 75 => 0x246a case 76 => 0x246b case 77 => 0x246c
    case 78 => 0x246d case 79 => 0x246e case 80 => 0x246f case 81 => 0x2776 case 82 => 0x2777
    case 83 => 0x2778 case 84 => 0x2779 case 85 => 0x277a case 86 => 0x277b case 87 => 0x277c
    case 88 => 0x277d case 89 => 0x277e case 90 => 0x277f case 91 => 0x24eb case 92 => 0x24ec
    case 93 => 0x325b
    case _ => 0
  }

}
