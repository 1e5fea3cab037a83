/** Concrete texts and what `long.TryParse` makes of them. */
module Int64TextScenarios {
  import opened Runtime
  import opened Int64Text

  /** Signs, zeros and spacing in `long.TryParse`: one optional sign, then digits only. */
  lemma GrammarScenario()
    ensures TryParseInt64("+5") == Some(5)
    ensures TryParseInt64("-0") == Some(0)
    ensures TryParseInt64("-007") == Some(-7)
    ensures TryParseInt64("5 5") == None
    ensures TryParseInt64("--5") == None
    ensures TryParseInt64("1-2") == None
    ensures TryParseInt64("  ") == None
  {
    PlusFive();
    MinusZero();
    MinusSeven();
    Rejected();
  }

  lemma PlusFive()
    ensures TryParseInt64("+5") == Some(5)
  {
    PlusFiveUntrimmed();
    assert ParseSigned("+5") == Some(5) by {
      assert "+5"[1..] == "5";
      assert DigitsValue("5") == 5 by { assert "5"[..0] == []; }
    }
  }

  lemma PlusFiveUntrimmed()
    ensures TrimEnd(TrimStart("+5")) == "+5"
  {
    assert TrimStart("+5") == "+5";
  }

  lemma MinusZero()
    ensures TryParseInt64("-0") == Some(0)
  {
    MinusZeroUntrimmed();
    assert ParseSigned("-0") == Some(0) by {
      assert "-0"[1..] == "0";
      assert DigitsValue("0") == 0 by { assert "0"[..0] == []; }
    }
  }

  lemma MinusZeroUntrimmed()
    ensures TrimEnd(TrimStart("-0")) == "-0"
  {
    assert TrimStart("-0") == "-0";
  }

  lemma MinusSeven()
    ensures TryParseInt64("-007") == Some(-7)
  {
    MinusSevenUntrimmed();
    ZerosSkipped();
  }

  lemma MinusSevenUntrimmed()
    ensures TrimEnd(TrimStart("-007")) == "-007"
  {
    assert TrimStart("-007") == "-007";
  }

  lemma ZerosSkipped()
    ensures ParseSigned("-007") == Some(-7)
  {
    assert "-007"[1..] == "007";
    assert DigitsValue("007") == 7 by {
      assert "007"[..2] == "00" && "00"[..1] == "0" && "0"[..0] == [];
    }
  }

  lemma Rejected()
    ensures TryParseInt64("5 5") == None
    ensures TryParseInt64("--5") == None
    ensures TryParseInt64("1-2") == None
    ensures TryParseInt64("  ") == None
  {
    InnerSpaceRejected();
    DoubleSignRejected();
    InnerSignRejected();
    BlankRejected();
  }

  lemma InnerSpaceRejected()
    ensures TryParseInt64("5 5") == None
  {
    InnerSpaceUntrimmed();
    assert ParseSigned("5 5") == None by { assert !IsDigit("5 5"[1]); }
  }

  lemma InnerSpaceUntrimmed()
    ensures TrimEnd(TrimStart("5 5")) == "5 5"
  {
    assert TrimStart("5 5") == "5 5";
  }

  lemma DoubleSignRejected()
    ensures TryParseInt64("--5") == None
  {
    DoubleSignUntrimmed();
    assert ParseSigned("--5") == None by { assert "--5"[1..] == "-5" && !IsDigit("-5"[0]); }
  }

  lemma DoubleSignUntrimmed()
    ensures TrimEnd(TrimStart("--5")) == "--5"
  {
    assert TrimStart("--5") == "--5";
  }

  lemma InnerSignRejected()
    ensures TryParseInt64("1-2") == None
  {
    InnerSignUntrimmed();
    assert ParseSigned("1-2") == None by { assert !IsDigit("1-2"[1]); }
  }

  lemma InnerSignUntrimmed()
    ensures TrimEnd(TrimStart("1-2")) == "1-2"
  {
    assert TrimStart("1-2") == "1-2";
  }

  lemma BlankRejected()
    ensures TryParseInt64("  ") == None
  {
    assert TrimStart("  ") == "" by { assert "  "[1..] == " " && " "[1..] == ""; }
  }
}
