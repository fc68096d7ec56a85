/** The lookup table of cf_redis_slot.c, and the one step that generates it. Its entries are looked at
    only here. */
module Crc16Table {
  /** crc16tab. */
  function Table(i: nat): (r: int)
    requires i < 256
  {
    if i < 128 then
      if i < 64 then
        if i < 32 then
          if i < 16 then
            if i < 8 then
              match i case 0 => 0x0000 case 1 => 0x1021 case 2 => 0x2042 case 3 => 0x3063 case 4 => 0x4084 case 5 => 0x50a5 case 6 => 0x60c6 case _ => 0x70e7
            else
              match i case 8 => 0x8108 case 9 => 0x9129 case 10 => 0xa14a case 11 => 0xb16b case 12 => 0xc18c case 13 => 0xd1ad case 14 => 0xe1ce case _ => 0xf1ef
          else
            if i < 24 then
              match i case 16 => 0x1231 case 17 => 0x0210 case 18 => 0x3273 case 19 => 0x2252 case 20 => 0x52b5 case 21 => 0x4294 case 22 => 0x72f7 case _ => 0x62d6
            else
              match i case 24 => 0x9339 case 25 => 0x8318 case 26 => 0xb37b case 27 => 0xa35a case 28 => 0xd3bd case 29 => 0xc39c case 30 => 0xf3ff case _ => 0xe3de
        else
          if i < 48 then
            if i < 40 then
              match i case 32 => 0x2462 case 33 => 0x3443 case 34 => 0x0420 case 35 => 0x1401 case 36 => 0x64e6 case 37 => 0x74c7 case 38 => 0x44a4 case _ => 0x5485
            else
              match i case 40 => 0xa56a case 41 => 0xb54b case 42 => 0x8528 case 43 => 0x9509 case 44 => 0xe5ee case 45 => 0xf5cf case 46 => 0xc5ac case _ => 0xd58d
          else
            if i < 56 then
              match i case 48 => 0x3653 case 49 => 0x2672 case 50 => 0x1611 case 51 => 0x0630 case 52 => 0x76d7 case 53 => 0x66f6 case 54 => 0x5695 case _ => 0x46b4
            else
              match i case 56 => 0xb75b case 57 => 0xa77a case 58 => 0x9719 case 59 => 0x8738 case 60 => 0xf7df case 61 => 0xe7fe case 62 => 0xd79d case _ => 0xc7bc
      else
        if i < 96 then
          if i < 80 then
            if i < 72 then
              match i case 64 => 0x48c4 case 65 => 0x58e5 case 66 => 0x6886 case 67 => 0x78a7 case 68 => 0x0840 case 69 => 0x1861 case 70 => 0x2802 case _ => 0x3823
            else
              match i case 72 => 0xc9cc case 73 => 0xd9ed case 74 => 0xe98e case 75 => 0xf9af case 76 => 0x8948 case 77 => 0x9969 case 78 => 0xa90a case _ => 0xb92b
          else
            if i < 88 then
              match i case 80 => 0x5af5 case 81 => 0x4ad4 case 82 => 0x7ab7 case 83 => 0x6a96 case 84 => 0x1a71 case 85 => 0x0a50 case 86 => 0x3a33 case _ => 0x2a12
            else
              match i case 88 => 0xdbfd case 89 => 0xcbdc case 90 => 0xfbbf case 91 => 0xeb9e case 92 => 0x9b79 case 93 => 0x8b58 case 94 => 0xbb3b case _ => 0xab1a
        else
          if i < 112 then
            if i < 104 then
              match i case 96 => 0x6ca6 case 97 => 0x7c87 case 98 => 0x4ce4 case 99 => 0x5cc5 case 100 => 0x2c22 case 101 => 0x3c03 case 102 => 0x0c60 case _ => 0x1c41
            else
              match i case 104 => 0xedae case 105 => 0xfd8f case 106 => 0xcdec case 107 => 0xddcd case 108 => 0xad2a case 109 => 0xbd0b case 110 => 0x8d68 case _ => 0x9d49
          else
            if i < 120 then
              match i case 112 => 0x7e97 case 113 => 0x6eb6 case 114 => 0x5ed5 case 115 => 0x4ef4 case 116 => 0x3e13 case 117 => 0x2e32 case 118 => 0x1e51 case _ => 0x0e70
            else
              match i case 120 => 0xff9f case 121 => 0xefbe case 122 => 0xdfdd case 123 => 0xcffc case 124 => 0xbf1b case 125 => 0xaf3a case 126 => 0x9f59 case _ => 0x8f78
    else
      if i < 192 then
        if i < 160 then
          if i < 144 then
            if i < 136 then
              match i case 128 => 0x9188 case 129 => 0x81a9 case 130 => 0xb1ca case 131 => 0xa1eb case 132 => 0xd10c case 133 => 0xc12d case 134 => 0xf14e case _ => 0xe16f
            else
              match i case 136 => 0x1080 case 137 => 0x00a1 case 138 => 0x30c2 case 139 => 0x20e3 case 140 => 0x5004 case 141 => 0x4025 case 142 => 0x7046 case _ => 0x6067
          else
            if i < 152 then
              match i case 144 => 0x83b9 case 145 => 0x9398 case 146 => 0xa3fb case 147 => 0xb3da case 148 => 0xc33d case 149 => 0xd31c case 150 => 0xe37f case _ => 0xf35e
            else
              match i case 152 => 0x02b1 case 153 => 0x1290 case 154 => 0x22f3 case 155 => 0x32d2 case 156 => 0x4235 case 157 => 0x5214 case 158 => 0x6277 case _ => 0x7256
        else
          if i < 176 then
            if i < 168 then
              match i case 160 => 0xb5ea case 161 => 0xa5cb case 162 => 0x95a8 case 163 => 0x8589 case 164 => 0xf56e case 165 => 0xe54f case 166 => 0xd52c case _ => 0xc50d
            else
              match i case 168 => 0x34e2 case 169 => 0x24c3 case 170 => 0x14a0 case 171 => 0x0481 case 172 => 0x7466 case 173 => 0x6447 case 174 => 0x5424 case _ => 0x4405
          else
            if i < 184 then
              match i case 176 => 0xa7db case 177 => 0xb7fa case 178 => 0x8799 case 179 => 0x97b8 case 180 => 0xe75f case 181 => 0xf77e case 182 => 0xc71d case _ => 0xd73c
            else
              match i case 184 => 0x26d3 case 185 => 0x36f2 case 186 => 0x0691 case 187 => 0x16b0 case 188 => 0x6657 case 189 => 0x7676 case 190 => 0x4615 case _ => 0x5634
      else
        if i < 224 then
          if i < 208 then
            if i < 200 then
              match i case 192 => 0xd94c case 193 => 0xc96d case 194 => 0xf90e case 195 => 0xe92f case 196 => 0x99c8 case 197 => 0x89e9 case 198 => 0xb98a case _ => 0xa9ab
            else
              match i case 200 => 0x5844 case 201 => 0x4865 case 202 => 0x7806 case 203 => 0x6827 case 204 => 0x18c0 case 205 => 0x08e1 case 206 => 0x3882 case _ => 0x28a3
          else
            if i < 216 then
              match i case 208 => 0xcb7d case 209 => 0xdb5c case 210 => 0xeb3f case 211 => 0xfb1e case 212 => 0x8bf9 case 213 => 0x9bd8 case 214 => 0xabbb case _ => 0xbb9a
            else
              match i case 216 => 0x4a75 case 217 => 0x5a54 case 218 => 0x6a37 case 219 => 0x7a16 case 220 => 0x0af1 case 221 => 0x1ad0 case 222 => 0x2ab3 case _ => 0x3a92
        else
          if i < 240 then
            if i < 232 then
              match i case 224 => 0xfd2e case 225 => 0xed0f case 226 => 0xdd6c case 227 => 0xcd4d case 228 => 0xbdaa case 229 => 0xad8b case 230 => 0x9de8 case _ => 0x8dc9
            else
              match i case 232 => 0x7c26 case 233 => 0x6c07 case 234 => 0x5c64 case 235 => 0x4c45 case 236 => 0x3ca2 case 237 => 0x2c83 case 238 => 0x1ce0 case _ => 0x0cc1
          else
            if i < 248 then
              match i case 240 => 0xef1f case 241 => 0xff3e case 242 => 0xcf5d case 243 => 0xdf7c case 244 => 0xaf9b case 245 => 0xbfba case 246 => 0x8fd9 case _ => 0x9ff8
            else
              match i case 248 => 0x6e17 case 249 => 0x7e36 case 250 => 0x4e55 case 251 => 0x5e74 case 252 => 0x2e93 case 253 => 0x3eb2 case 254 => 0x0ed1 case _ => 0x1ef0
  }

  /** An even number with the bits 12, 5 and 0 inverted. */
  function Flip(x: nat): (r: int) {
    x + 1 + (if x % 64 >= 32 then -32 else 32) + (if x % 0x2000 >= 0x1000 then -0x1000 else 0x1000)
  }

  predicate Pair(shifted: nat, same: int, flipped: int) {
    same == shifted && flipped == Flip(shifted)
  }

  /** An entry determines the two entries at twice its index: one is the entry shifted, the other
      differs from it by the polynomial, and the bit shifted out says which is which. */
  predicate TableStep(j: nat)
    requires j < 128
  {
    var t := Table(j);
    if t >= 0x8000 then Pair(2 * t - 0x1_0000, Table(2 * j + 1), Table(2 * j))
    else t >= 0 && Pair(2 * t, Table(2 * j), Table(2 * j + 1))
  }

  lemma FirstEntry()
    ensures Table(0) == 0
  {
  }

  lemma Entries0To7(j: nat)
    requires 0 <= j < 8
    ensures TableStep(j)
  {
  }

  lemma Entries8To15(j: nat)
    requires 8 <= j < 16
    ensures TableStep(j)
  {
  }

  lemma Entries16To23(j: nat)
    requires 16 <= j < 24
    ensures TableStep(j)
  {
  }

  lemma Entries24To31(j: nat)
    requires 24 <= j < 32
    ensures TableStep(j)
  {
  }

  lemma Entries32To39(j: nat)
    requires 32 <= j < 40
    ensures TableStep(j)
  {
  }

  lemma Entries40To47(j: nat)
    requires 40 <= j < 48
    ensures TableStep(j)
  {
  }

  lemma Entries48To55(j: nat)
    requires 48 <= j < 56
    ensures TableStep(j)
  {
  }

  lemma Entries56To63(j: nat)
    requires 56 <= j < 64
    ensures TableStep(j)
  {
  }

  lemma Entries64To71(j: nat)
    requires 64 <= j < 72
    ensures TableStep(j)
  {
  }

  lemma Entries72To79(j: nat)
    requires 72 <= j < 80
    ensures TableStep(j)
  {
  }

  lemma Entries80To87(j: nat)
    requires 80 <= j < 88
    ensures TableStep(j)
  {
  }

  lemma Entries88To95(j: nat)
    requires 88 <= j < 96
    ensures TableStep(j)
  {
  }

  lemma Entries96To103(j: nat)
    requires 96 <= j < 104
    ensures TableStep(j)
  {
  }

  lemma Entries104To111(j: nat)
    requires 104 <= j < 112
    ensures TableStep(j)
  {
  }

  lemma Entries112To119(j: nat)
    requires 112 <= j < 120
    ensures TableStep(j)
  {
  }

  lemma Entries120To127(j: nat)
    requires 120 <= j < 128
    ensures TableStep(j)
  {
  }

  lemma TableSteps(j: nat)
    requires j < 128
    ensures TableStep(j)
  {
    hide TableStep;
    match j / 8
    case 0 => Entries0To7(j);
    case 1 => Entries8To15(j);
    case 2 => Entries16To23(j);
    case 3 => Entries24To31(j);
    case 4 => Entries32To39(j);
    case 5 => Entries40To47(j);
    case 6 => Entries48To55(j);
    case 7 => Entries56To63(j);
    case 8 => Entries64To71(j);
    case 9 => Entries72To79(j);
    case 10 => Entries80To87(j);
    case 11 => Entries88To95(j);
    case 12 => Entries96To103(j);
    case 13 => Entries104To111(j);
    case 14 => Entries112To119(j);
    case _ => Entries120To127(j);
  }
}
