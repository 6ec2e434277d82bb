/** The names in the table of fields: what makes the generator, the filters and the validation safe with them. */
module Names {
  import opened Text
  import opened Fields
  import opened Filters

  // ---------------------------------------------------------------- all of them

  function NamesA(): seq<string> {
    [
      "TCPHeaderLen", "SRTT", "RTT", "MDev", "MDevMax", "RTTVar", "PacketsOut", "RetransOut", "MaxPacketsOut",
      "MaxPacketsSeq", "TotalRetrans", "AdvMSS", "BytesReceived", "BytesSent", "BytesAcked", "SegsIn",
      "SegsOut", "DsackDups", "RateDelivered"
    ]
  }

  function NamesB(): seq<string> {
    [
      "RateInterval", "SndSSThresh", "GSOSegs", "DataSegsIn", "MaxWindow", "SndWnd", "WindowClamp",
      "RcvSSThresh", "ECNFlags", "SndCwnd", "PrrOut", "Delivered", "DeliveredCe", "Lost", "LostOut",
      "PriorSSThresh", "DataSegsOut", "UnAcked", "SAcked"
    ]
  }

  function NamesOther(): seq<string> {
    [
      "NewState", "OldState", "RcvRTT", "SAddr", "DAddr", "DPort", "LPort", "NumSAcks", "UserMSS", "RACKRTT",
      "MSSClamp", "Task", "PID", "RcvSpace", "RTO"
    ]
  }

  lemma ListedA(name: string)
    requires name in TcpSockFieldsA()
    ensures name in NamesA()
  {
  }

  lemma ListedB(name: string)
    requires name in TcpSockFieldsB()
    ensures name in NamesB()
  {
  }

  lemma ListedOther(name: string)
    requires name in OtherFields()
    ensures name in NamesOther()
  {
  }

  lemma {:induction false} AtMostListed(keys: set<string>, names: seq<string>)
    requires forall k :: k in keys ==> k in names
    ensures |keys| <= |names|
  {
    if names != [] {
      var last := names[|names| - 1];
      forall k | k in keys - {last}
        ensures k in names[..|names| - 1]
      {
        assert k in names;
      }
      AtMostListed(keys - {last}, names[..|names| - 1]);
    }
  }

  lemma TableSize()
    ensures |FieldsModel4().Keys| <= 53
  {
    var all := NamesA() + (NamesB() + NamesOther());
    forall k | k in FieldsModel4()
      ensures k in all
    {
      if k in OtherFields() {
        ListedOther(k);
      } else if k in TcpSockFieldsB() {
        ListedB(k);
      } else {
        ListedA(k);
      }
    }
    AtMostListed(FieldsModel4().Keys, all);
  }

  // ---------------------------------------------------------------- words

  predicate Letter(c: char) {
    'a' <= c <= 'z' || 'A' <= c <= 'Z'
  }

  predicate AllLetters(name: string) {
    name != "" && forall i :: 0 <= i < |name| ==> Letter(name[i])
  }

  lemma NameHeadA(name: string, i: nat)
    requires name in TcpSockFieldsA() && i < |name| && i < 5
    ensures Letter(name[i])
  {
  }

  lemma NameTailA(name: string, i: nat)
    requires name in TcpSockFieldsA() && 5 <= i < |name|
    ensures Letter(name[i])
  {
  }

  lemma NameA(name: string)
    requires name in TcpSockFieldsA() && name != ""
    ensures AllLetters(name)
  {
    forall i | 0 <= i < |name|
      ensures Letter(name[i])
    {
      if i < 5 {
        NameHeadA(name, i);
      } else {
        NameTailA(name, i);
      }
    }
  }

  lemma NotTaskA(name: string)
    requires name in TcpSockFieldsA()
    ensures name != "" && name != "Task"
  {
  }

  lemma NameHeadB(name: string, i: nat)
    requires name in TcpSockFieldsB() && i < |name| && i < 5
    ensures Letter(name[i])
  {
  }

  lemma NameTailB(name: string, i: nat)
    requires name in TcpSockFieldsB() && 5 <= i < |name|
    ensures Letter(name[i])
  {
  }

  lemma NameB(name: string)
    requires name in TcpSockFieldsB() && name != ""
    ensures AllLetters(name)
  {
    forall i | 0 <= i < |name|
      ensures Letter(name[i])
    {
      if i < 5 {
        NameHeadB(name, i);
      } else {
        NameTailB(name, i);
      }
    }
  }

  lemma NotTaskB(name: string)
    requires name in TcpSockFieldsB()
    ensures name != "" && name != "Task"
  {
  }

  lemma NameOther(name: string)
    requires name in OtherFields()
    ensures AllLetters(name)
  {
  }

  lemma NamesAreWords(name: string)
    requires name in FieldsModel4()
    ensures IsWord(name) && AllLetters(name)
  {
    if name in OtherFields() {
      NameOther(name);
    } else if name in TcpSockFieldsB() {
      NotTaskB(name);
      NameB(name);
    } else {
      NotTaskA(name);
      NameA(name);
    }
  }

  // ---------------------------------------------------------------- capitals and lengths

  predicate Capital(c: char) {
    'A' <= c <= 'Z'
  }

  predicate Capitalised(name: string) {
    3 <= |name| <= 13 && Capital(name[0])
  }

  lemma CapitalisedA(name: string)
    requires name in TcpSockFieldsA()
    ensures Capitalised(name)
  {
  }

  lemma CapitalisedB(name: string)
    requires name in TcpSockFieldsB()
    ensures Capitalised(name)
  {
  }

  lemma CapitalisedOther(name: string)
    requires name in OtherFields()
    ensures Capitalised(name)
  {
  }

  lemma NamesAreCapitalised(name: string)
    requires name in FieldsModel4()
    ensures Capitalised(name)
  {
    if name in OtherFields() {
      CapitalisedOther(name);
    } else if name in TcpSockFieldsB() {
      CapitalisedB(name);
    } else {
      CapitalisedA(name);
    }
  }

  /** The members' C names have no capitals, and end in neither a digit nor an a. */
  predicate LowerChar(c: char) {
    'a' <= c <= 'z' || IsDigit(c) || c == '_'
  }

  predicate CName(c: string) {
    c != "" && !IsDigit(c[|c| - 1]) && c[|c| - 1] != 'a' && forall i :: 0 <= i < |c| ==> LowerChar(c[i])
  }

  lemma CNameEndsA(name: string)
    requires name in TcpSockFieldsA()
    ensures var c := TcpSockFieldsA()[name].cField; 1 <= |c| <= 16 && !IsDigit(c[|c| - 1]) && c[|c| - 1] != 'a'
  {
  }

  lemma CNameEndsB(name: string)
    requires name in TcpSockFieldsB()
    ensures var c := TcpSockFieldsB()[name].cField; 1 <= |c| <= 16 && !IsDigit(c[|c| - 1]) && c[|c| - 1] != 'a'
  {
  }

  lemma CNameHeadA(name: string, i: nat)
    requires name in TcpSockFieldsA() && i < |TcpSockFieldsA()[name].cField| && i < 6
    ensures LowerChar(TcpSockFieldsA()[name].cField[i])
  {
  }

  lemma CNameTailA(name: string, i: nat)
    requires name in TcpSockFieldsA() && 6 <= i < |TcpSockFieldsA()[name].cField|
    ensures LowerChar(TcpSockFieldsA()[name].cField[i])
  {
  }

  lemma CNameHeadB(name: string, i: nat)
    requires name in TcpSockFieldsB() && i < |TcpSockFieldsB()[name].cField| && i < 6
    ensures LowerChar(TcpSockFieldsB()[name].cField[i])
  {
  }

  lemma CNameTailB(name: string, i: nat)
    requires name in TcpSockFieldsB() && 6 <= i < |TcpSockFieldsB()[name].cField|
    ensures LowerChar(TcpSockFieldsB()[name].cField[i])
  {
  }

  lemma CNameA(name: string)
    requires name in TcpSockFieldsA()
    ensures CName(TcpSockFieldsA()[name].cField)
  {
    CNameEndsA(name);
    forall i | 0 <= i < |TcpSockFieldsA()[name].cField|
      ensures LowerChar(TcpSockFieldsA()[name].cField[i])
    {
      if i < 6 {
        CNameHeadA(name, i);
      } else {
        CNameTailA(name, i);
      }
    }
  }

  lemma CNameB(name: string)
    requires name in TcpSockFieldsB()
    ensures CName(TcpSockFieldsB()[name].cField)
  {
    CNameEndsB(name);
    forall i | 0 <= i < |TcpSockFieldsB()[name].cField|
      ensures LowerChar(TcpSockFieldsB()[name].cField[i])
    {
      if i < 6 {
        CNameHeadB(name, i);
      } else {
        CNameTailB(name, i);
      }
    }
  }

  lemma CNameEndsOther(name: string)
    requires name in OtherFields()
    ensures var c := OtherFields()[name].cField; 1 <= |c| <= 16 && !IsDigit(c[|c| - 1]) && c[|c| - 1] != 'a'
  {
  }

  lemma CNameCharOther(name: string, i: nat)
    requires name in OtherFields() && i < |OtherFields()[name].cField|
    ensures LowerChar(OtherFields()[name].cField[i])
  {
  }

  lemma CNameOther(name: string)
    requires name in OtherFields()
    ensures CName(OtherFields()[name].cField)
  {
    CNameEndsOther(name);
    forall i | 0 <= i < |OtherFields()[name].cField|
      ensures LowerChar(OtherFields()[name].cField[i])
    {
      CNameCharOther(name, i);
    }
  }

  lemma MembersHaveCNames4(name: string)
    requires name in FieldsModel4()
    ensures CName(FieldsModel4()[name].cField)
  {
    if name in OtherFields() {
      CNameOther(name);
    } else if name in TcpSockFieldsB() {
      CNameB(name);
    } else {
      CNameA(name);
    }
  }

  lemma CNameOf6(name: string, a: FieldAttrs)
    requires CName(a.cField)
    ensures CName(Attrs6(name, a).cField)
  {
    AddressesHaveCNames();
  }

  lemma MembersHaveCNames6(name: string)
    requires name in FieldsModel6()
    ensures CName(FieldsModel6()[name].cField)
  {
    MembersHaveCNames4(name);
    CNameOf6(name, FieldsModel4()[name]);
  }

  lemma AddressesHaveCNames()
    ensures CName("skc_v6_rcv_saddr") && CName("skc_v6_daddr")
  {
  }

  // ---------------------------------------------------------------- spellings

  /** strings.ToLower on ASCII text. */
  function LowerOf(c: char): char {
    if Capital(c) then (c as nat + 32) as char else c
  }

  function AsciiLower(s: string): (l: string)
    ensures |l| == |s|
  {
    seq(|s|, i requires 0 <= i < |s| => LowerOf(s[i]))
  }

  /** The length and three letters of a name, whatever their case, tell which one it is. */
  function ByLetters(n: nat, a: char, b: char, z: char): string {
    if n == 3 then
      if z == 't' then "RTT"
      else if a == 'p' then "PID"
      else "RTO"
    else if n == 4 then
      if a == 's' then "SRTT"
      else if a == 'm' then "MDev"
      else if a == 'l' then "Lost"
      else "Task"
    else if n == 5 then
      if a == 's' then "SAddr"
      else if b == 'a' then "DAddr"
      else if a == 'd' then "DPort"
      else "LPort"
    else if n == 6 then
      if b == 't' then "RTTVar"
      else if a == 'a' then "AdvMSS"
      else if b == 'e' then "SegsIn"
      else if b == 'n' then "SndWnd"
      else if a == 'p' then "PrrOut"
      else if a == 's' then "SAcked"
      else "RcvRTT"
    else if n == 7 then
      if a == 'm' then "MDevMax"
      else if b == 'e' then "SegsOut"
      else if a == 'g' then "GSOSegs"
      else if a == 's' then "SndCwnd"
      else if a == 'l' then "LostOut"
      else if b == 'n' then "UnAcked"
      else if a == 'u' then "UserMSS"
      else "RACKRTT"
    else if n == 8 then
      if a == 'e' then "ECNFlags"
      else if b == 'e' then "NewState"
      else if a == 'o' then "OldState"
      else if a == 'n' then "NumSAcks"
      else if a == 'm' then "MSSClamp"
      else "RcvSpace"
    else if n == 9 then
      if a == 'b' then "BytesSent"
      else if b == 's' then "DsackDups"
      else if a == 'm' then "MaxWindow"
      else "Delivered"
    else if n == 10 then
      if a == 'p' then "PacketsOut"
      else if a == 'r' then "RetransOut"
      else if a == 'b' then "BytesAcked"
      else "DataSegsIn"
    else if n == 11 then
      if a == 's' then "SndSSThresh"
      else if a == 'w' then "WindowClamp"
      else if a == 'r' then "RcvSSThresh"
      else if b == 'e' then "DeliveredCe"
      else "DataSegsOut"
    else if n == 12 then
      if b == 'c' then "TCPHeaderLen"
      else if a == 't' then "TotalRetrans"
      else "RateInterval"
    else if n == 13 then
      if z == 't' then "MaxPacketsOut"
      else if a == 'm' then "MaxPacketsSeq"
      else if a == 'b' then "BytesReceived"
      else if a == 'r' then "RateDelivered"
      else "PriorSSThresh"
    else ""
  }

  predicate Recognised(name: string) {
    |name| >= 2 && ByLetters(|name|, LowerOf(name[0]), LowerOf(name[1]), LowerOf(name[|name| - 1])) == name
  }

  lemma RecognisedShorterA(name: string)
    requires name in TcpSockFieldsA() && |name| <= 7
    ensures Recognised(name)
  {
  }

  lemma RecognisedLongerA(name: string)
    requires name in TcpSockFieldsA() && |name| > 7
    ensures Recognised(name)
  {
  }

  lemma RecognisedA(name: string)
    requires name in TcpSockFieldsA()
    ensures Recognised(name)
  {
    if |name| <= 7 {
      RecognisedShorterA(name);
    } else {
      RecognisedLongerA(name);
    }
  }

  lemma RecognisedShorterB(name: string)
    requires name in TcpSockFieldsB() && |name| <= 7
    ensures Recognised(name)
  {
  }

  lemma RecognisedLongerB(name: string)
    requires name in TcpSockFieldsB() && |name| > 7
    ensures Recognised(name)
  {
  }

  lemma RecognisedB(name: string)
    requires name in TcpSockFieldsB()
    ensures Recognised(name)
  {
    if |name| <= 7 {
      RecognisedShorterB(name);
    } else {
      RecognisedLongerB(name);
    }
  }

  lemma RecognisedOther(name: string)
    requires name in OtherFields()
    ensures Recognised(name)
  {
  }

  lemma NamesAreRecognised(name: string)
    requires name in FieldsModel4()
    ensures Recognised(name)
  {
    if name in OtherFields() {
      RecognisedOther(name);
    } else if name in TcpSockFieldsB() {
      RecognisedB(name);
    } else {
      RecognisedA(name);
    }
  }

  lemma RecognisedShort(n: nat, a: char, b: char, z: char)
    requires 3 <= n <= 4
    ensures var name := ByLetters(n, a, b, z);
            name != "" && LowerOf(name[0]) in {'r', 'p', 's', 'm', 'l', 't'} && (LowerOf(name[0]) == 't' ==> n == 4)
  {
    assert "RTT"[0] == 'R' && "PID"[0] == 'P' && "RTO"[0] == 'R';
    assert "SRTT"[0] == 'S' && "MDev"[0] == 'M' && "Lost"[0] == 'L' && "Task"[0] == 'T';
  }

  /** The short names begin with letters that the record's name lacks, or are too long for what follows. */
  lemma ShortNames(name: string)
    requires name in FieldsModel4() && |name| <= 4
    ensures |name| >= 3 && LowerOf(name[0]) != 'd' && LowerOf(name[0]) != 'a'
    ensures LowerOf(name[0]) == 't' ==> |name| == 4
  {
    NamesAreRecognised(name);
    NamesAreCapitalised(name);
    RecognisedShort(|name|, LowerOf(name[0]), LowerOf(name[1]), LowerOf(name[|name| - 1]));
  }

  lemma RecognisedOnce(a: string, b: string)
    requires Recognised(a) && Recognised(b) && AsciiLower(a) == AsciiLower(b)
    ensures a == b
  {
    var l := AsciiLower(a);
    assert |a| == |l| == |b|;
    assert l[0] == LowerOf(a[0]) == LowerOf(b[0]);
    assert l[1] == LowerOf(a[1]) == LowerOf(b[1]);
    assert l[|l| - 1] == LowerOf(a[|l| - 1]) == LowerOf(b[|l| - 1]);
  }

  /** No two names of the table differ in case alone. */
  lemma SpellingsAreUnique(a: string, b: string)
    requires a in FieldsModel4() && b in FieldsModel4() && AsciiLower(a) == AsciiLower(b)
    ensures a == b
  {
    NamesAreRecognised(a);
    NamesAreRecognised(b);
    RecognisedOnce(a, b);
  }
}
