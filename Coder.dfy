/** The Carrot assembler's code generator: CarrotBinaryCoder's symbol tables
    (constant strings, global variables, labels), its instruction and argument
    lists, and OpCoderBase's operand checks. Token-kind constants come from the
    lexer, which is not part of this model; they are parameters here. */
module Coder {
  import opened Wrappers
  import opened AllocatorUtility
  import opened SrValues

  /** The lexer's token-kind constants this code uses. */
  datatype TokenKinds = TokenKinds(
    opHalt: int32, opMov: int32, registerKeywordOffset: int32,
    /** CarrotAsmTokenKind.IsRegisterNameKind */
    isRegisterNameKind: int -> bool)

  /** Switch case labels are distinct constants. */
  predicate DistinctOpKinds(kinds: TokenKinds) {
    kinds.opHalt != kinds.opMov
  }

  /** A token, as far as the operand checks read it. */
  datatype Token = Token(kind: int32)

  /** The OpCode field of the generated InstructionCode; Unset is the default
      an instruction keeps when its opcode case sets nothing. */
  datatype OpCode = Unset | Halt | Mov

  datatype InstructionCode = InstructionCode(opCode: OpCode)

  /** The message GenerateCode hands back. */
  datatype Message = NoMessage | HaltTakesNoOperands | MovNeedsTwoOperands

  /** The coder's fields, as one value. */
  datatype CoderState = CoderState(
    constStringTable: map<uint32, string>,
    globalVariableTable: map<string, int>,
    labelTable: map<string, int>,
    instructionList: seq<InstructionCode>,
    argumentList: seq<Token>,
    nextGlobalVariableIndex: int32,
    opCodeTokenKind: int32)

  const Initial := CoderState(map[], map[], map[], [], [], -1, 0)

  /** What registration keeps true: the counter is negative, global ids are
      distinct negatives above it, labels are instruction positions, and no name is both. */
  ghost predicate Consistent(s: CoderState) {
    && s.nextGlobalVariableIndex < 0
    && (forall n :: n in s.globalVariableTable ==> s.nextGlobalVariableIndex < s.globalVariableTable[n] < 0)
    && (forall n, m :: n in s.globalVariableTable && m in s.globalVariableTable && n != m ==>
          s.globalVariableTable[n] != s.globalVariableTable[m])
    && (forall n :: n in s.labelTable ==> 0 <= s.labelTable[n] <= |s.instructionList|)
    && (forall n :: n in s.globalVariableTable ==> n !in s.labelTable)
  }

  lemma InitialConsistent()
    ensures Consistent(Initial)
  {
  }

  function Known(s: CoderState, name: string): bool {
    name in s.globalVariableTable || name in s.labelTable
  }

  /** RegisterConstString: false and no change if the index is taken. */
  function AfterRegisterConstString(s: CoderState, index: uint32, text: string): (r: (bool, CoderState))
    ensures r.0 <==> index !in s.constStringTable
    ensures !r.0 ==> r.1 == s
    ensures r.0 ==> r.1 == s.(constStringTable := s.constStringTable[index := text])
  {
    if index in s.constStringTable then (false, s)
    else (true, s.(constStringTable := s.constStringTable[index := text]))
  }

  /** RegisterGlobalVariable: 0 for a name already used by a global or a
      label; otherwise the counter's value, and the counter steps down. */
  function AfterRegisterGlobalVariable(s: CoderState, name: string): (r: (int, CoderState))
    ensures Known(s, name) ==> r == (0, s)
    ensures !Known(s, name) ==> r.0 == s.nextGlobalVariableIndex && r.1.globalVariableTable == s.globalVariableTable[name := r.0]
    ensures !Known(s, name) ==> r.1.nextGlobalVariableIndex == Wrap32(s.nextGlobalVariableIndex - 1)
    ensures r.1.labelTable == s.labelTable && r.1.instructionList == s.instructionList
  {
    if Known(s, name) then (0, s)
    else
      var registered := s.nextGlobalVariableIndex;
      (registered, s.(nextGlobalVariableIndex := Wrap32(registered - 1),
                      globalVariableTable := s.globalVariableTable[name := registered]))
  }

  /** RegisterLable: -1 for a name already used; otherwise the name is bound
      to the current instruction count, which is returned. */
  function AfterRegisterLabel(s: CoderState, name: string): (r: (int, CoderState))
    ensures Known(s, name) ==> r == (-1, s)
    ensures !Known(s, name) ==> r.0 == |s.instructionList| && r.1 == s.(labelTable := s.labelTable[name := r.0])
  {
    if Known(s, name) then (-1, s)
    else (|s.instructionList|, s.(labelTable := s.labelTable[name := |s.instructionList|]))
  }

  /** Registering a global keeps the tables consistent while the counter has
      not reached int.MinValue (after 2^31 globals it would wrap). */
  lemma RegisterGlobalKeepsConsistent(s: CoderState, name: string)
    requires Consistent(s) && s.nextGlobalVariableIndex > -0x8000_0000
    ensures Consistent(AfterRegisterGlobalVariable(s, name).1)
  {
  }

  /** A new global's id is negative and differs from every id already given. */
  lemma NewGlobalIdIsFresh(s: CoderState, name: string)
    requires Consistent(s) && !Known(s, name)
    ensures AfterRegisterGlobalVariable(s, name).0 < 0
    ensures forall n :: n in s.globalVariableTable ==> s.globalVariableTable[n] != AfterRegisterGlobalVariable(s, name).0
  {
  }

  /** Two fresh names registered in turn get consecutive descending ids. */
  lemma GlobalIdsDescend(s: CoderState, a: string, b: string)
    requires a != b && !Known(s, a) && !Known(s, b) && s.nextGlobalVariableIndex > -0x8000_0000
    ensures AfterRegisterGlobalVariable(AfterRegisterGlobalVariable(s, a).1, b).0 == AfterRegisterGlobalVariable(s, a).0 - 1
  {
  }

  lemma RegisterLabelKeepsConsistent(s: CoderState, name: string)
    requires Consistent(s)
    ensures Consistent(AfterRegisterLabel(s, name).1)
  {
  }

  /** The instruction GenerateCode builds for the pending opcode kind. */
  function CodeFor(kinds: TokenKinds, opKind: int32): (r: InstructionCode)
    ensures r.opCode == Halt <==> opKind == kinds.opHalt
    ensures r.opCode == Mov <==> opKind != kinds.opHalt && opKind == kinds.opMov
  {
    if opKind == kinds.opHalt then InstructionCode(Halt)
    else if opKind == kinds.opMov then InstructionCode(Mov)
    else InstructionCode(Unset)
  }

  /** GenerateCode: halt with any operand is refused and nothing changes;
      every other case, mov with the wrong operand count included, appends
      one instruction, clears the arguments and reports no message. */
  function AfterGenerateCode(kinds: TokenKinds, s: CoderState): (r: (bool, Message, CoderState))
    ensures !r.0 <==> s.opCodeTokenKind == kinds.opHalt && |s.argumentList| >= 1
    ensures !r.0 ==> r.1 == HaltTakesNoOperands && r.2 == s
    ensures r.0 ==> (
      && r.1 == NoMessage && r.2.argumentList == []
      && r.2.instructionList == s.instructionList + [CodeFor(kinds, s.opCodeTokenKind)]
      && r.2 == s.(instructionList := r.2.instructionList, argumentList := []))
  {
    if s.opCodeTokenKind == kinds.opHalt && |s.argumentList| >= 1 then (false, HaltTakesNoOperands, s)
    else (true, NoMessage, s.(instructionList := s.instructionList + [CodeFor(kinds, s.opCodeTokenKind)], argumentList := []))
  }

  /** Generating code keeps labels pointing at instruction positions. */
  lemma GenerateCodeKeepsConsistent(kinds: TokenKinds, s: CoderState)
    requires Consistent(s)
    ensures Consistent(AfterGenerateCode(kinds, s).2)
  {
  }

  /** A mov with one operand is accepted as written. */
  lemma MovWithOneOperandIsAccepted(kinds: TokenKinds, s: CoderState, t: Token)
    requires DistinctOpKinds(kinds) && s.opCodeTokenKind == kinds.opMov && s.argumentList == [t]
    ensures AfterGenerateCode(kinds, s).0 && AfterGenerateCode(kinds, s).1 == NoMessage
    ensures AfterGenerateCode(kinds, s).2.instructionList == s.instructionList + [InstructionCode(Mov)]
  {
  }

  class CarrotBinaryCoder {
    const kinds: TokenKinds
    var constStringTable: map<uint32, string>
    var globalVariableTable: map<string, int>
    var labelTable: map<string, int>
    var instructionList: seq<InstructionCode>
    var argumentList: seq<Token>
    var nextGlobalVariableIndex: int32
    var opCodeTokenKind: int32

    function State(): CoderState
      reads this
    {
      CoderState(constStringTable, globalVariableTable, labelTable, instructionList, argumentList,
                 nextGlobalVariableIndex, opCodeTokenKind)
    }

    constructor (kinds: TokenKinds)
      ensures this.kinds == kinds && State() == Initial
    {
      this.kinds := kinds;
      constStringTable := map[];
      globalVariableTable := map[];
      labelTable := map[];
      instructionList := [];
      argumentList := [];
      nextGlobalVariableIndex := -1;
      opCodeTokenKind := 0;
    }

    method RegisterConstString(index: uint32, text: string) returns (r: bool)
      modifies this
      ensures (r, State()) == AfterRegisterConstString(old(State()), index, text)
    {
      if index in constStringTable {
        return false;
      }
      constStringTable := constStringTable[index := text];
      r := true;
    }

    method RegisterGlobalVariable(name: string) returns (r: int)
      modifies this
      ensures (r, State()) == AfterRegisterGlobalVariable(old(State()), name)
    {
      if name in globalVariableTable || name in labelTable {
        return 0;
      }
      var registeredIndex := nextGlobalVariableIndex;
      nextGlobalVariableIndex := Wrap32(nextGlobalVariableIndex - 1);
      globalVariableTable := globalVariableTable[name := registeredIndex];
      r := registeredIndex;
    }

    method RegisterLabel(name: string) returns (r: int)
      modifies this
      ensures (r, State()) == AfterRegisterLabel(old(State()), name)
    {
      if name in globalVariableTable || name in labelTable {
        return -1;
      }
      labelTable := labelTable[name := |instructionList|];
      r := |instructionList|;
    }

    function ContainGlobalVariable(name: string): (r: bool)
      reads this
      ensures r ==> Known(State(), name)
      ensures r <==> name in globalVariableTable
    {
      name in globalVariableTable
    }

    function ContainLabel(name: string): (r: bool)
      reads this
      ensures r ==> Known(State(), name)
      ensures r <==> name in labelTable
    {
      name in labelTable
    }

    method SetOpCodeTokenKind(tokenKind: int32)
      modifies this
      ensures State() == old(State()).(opCodeTokenKind := tokenKind)
    {
      opCodeTokenKind := tokenKind;
    }

    method AddArgumentToken(token: Token)
      modifies this
      ensures State() == old(State()).(argumentList := old(argumentList) + [token])
    {
      argumentList := argumentList + [token];
    }

    method GenerateCode() returns (r: bool, message: Message)
      modifies this
      ensures (r, message, State()) == AfterGenerateCode(kinds, old(State()))
    {
      var instructionCode := InstructionCode(Unset);
      if opCodeTokenKind == kinds.opHalt {
        if |argumentList| >= 1 {
          return false, HaltTakesNoOperands;
        }
        instructionCode := InstructionCode(Halt);
      } else if opCodeTokenKind == kinds.opMov {
        if |argumentList| != 2 {
          message := MovNeedsTwoOperands;
        }
        instructionCode := InstructionCode(Mov);
      }
      instructionList := instructionList + [instructionCode];
      argumentList := [];
      message := NoMessage;
      r := true;
    }
  }

  // OpCoderBase's operand checks.

  /** The verdict of an operand check: the message it sets tells the two
      refusals apart; Faulted is the exception an out-of-range operand
      index throws. */
  datatype PatternResult = Accepted | WrongCount | WrongType | Faulted

  /** TestOperandType: -1 expects any register; any other value expects that
      exact kind. */
  function TestOperandType(kinds: TokenKinds, expectedType: int, actualType: int): (r: bool)
    ensures expectedType == -1 ==> (r <==> kinds.isRegisterNameKind(actualType))
    ensures expectedType != -1 ==> (r <==> expectedType == actualType)
  {
    if expectedType == -1 then kinds.isRegisterNameKind(actualType) else expectedType == actualType
  }

  /** The reference reading of an operand pattern: as many operands as
      expected kinds, each passing the type test. */
  ghost predicate Matches(kinds: TokenKinds, operand: seq<Token>, expected: seq<int>) {
    |operand| == |expected| && forall i :: 0 <= i < |operand| ==> TestOperandType(kinds, expected[i], operand[i].kind)
  }

  function TestOperandPattern0(operand: seq<Token>): (r: PatternResult)
    ensures r == Accepted || r == WrongCount
  {
    if |operand| != 0 then WrongCount else Accepted
  }

  function TestOperandPattern1(kinds: TokenKinds, operand: seq<Token>, arg1: int): (r: PatternResult)
    ensures r != Faulted
  {
    if |operand| != 1 then WrongCount
    else if !TestOperandType(kinds, arg1, operand[0].kind) then WrongType
    else Accepted
  }

  function TestOperandPattern2(kinds: TokenKinds, operand: seq<Token>, arg1: int, arg2: int): (r: PatternResult)
    ensures r != Faulted
  {
    if |operand| != 2 then WrongCount
    else if !TestOperandType(kinds, arg1, operand[0].kind) || !TestOperandType(kinds, arg2, operand[1].kind) then WrongType
    else Accepted
  }

  /** The 0-, 1- and 2-operand patterns accept exactly the operand lists that
      match, and refuse a wrong count before looking at kinds. */
  lemma PatternsAcceptExactlyMatches(kinds: TokenKinds, operand: seq<Token>, arg1: int, arg2: int)
    ensures TestOperandPattern0(operand) == Accepted <==> Matches(kinds, operand, [])
    ensures TestOperandPattern1(kinds, operand, arg1) == Accepted <==> Matches(kinds, operand, [arg1])
    ensures TestOperandPattern2(kinds, operand, arg1, arg2) == Accepted <==> Matches(kinds, operand, [arg1, arg2])
    ensures |operand| != 1 ==> TestOperandPattern1(kinds, operand, arg1) == WrongCount
    ensures |operand| != 2 ==> TestOperandPattern2(kinds, operand, arg1, arg2) == WrongCount
  {
    if TestOperandPattern2(kinds, operand, arg1, arg2) != Accepted && |operand| == 2 {
      assert !TestOperandType(kinds, arg1, operand[0].kind) || !TestOperandType(kinds, arg2, operand[1].kind);
    }
  }

  /** The 3-operand pattern as written: the count is compared with 2, and with
      two operands that pass the first two type tests the third is read
      past the end of the list. */
  function TestOperandPattern3AsWritten(kinds: TokenKinds, operand: seq<Token>, arg1: int, arg2: int, arg3: int): (r: PatternResult)
    ensures r != Accepted && (|operand| != 2 <==> r == WrongCount)
  {
    if |operand| != 2 then WrongCount
    else if !TestOperandType(kinds, arg1, operand[0].kind) || !TestOperandType(kinds, arg2, operand[1].kind) then WrongType
    else Faulted
  }

  /** As written, no operand list is ever accepted: three matching operands
      are refused for their count, and two matching operands fault. */
  lemma Pattern3AsWrittenNeverAccepts(kinds: TokenKinds, operand: seq<Token>, arg1: int, arg2: int, arg3: int)
    ensures TestOperandPattern3AsWritten(kinds, operand, arg1, arg2, arg3) != Accepted
    ensures Matches(kinds, operand, [arg1, arg2, arg3]) ==> TestOperandPattern3AsWritten(kinds, operand, arg1, arg2, arg3) == WrongCount
    ensures Matches(kinds, operand, [arg1, arg2]) ==> TestOperandPattern3AsWritten(kinds, operand, arg1, arg2, arg3) == Faulted
  {
    if Matches(kinds, operand, [arg1, arg2]) {
      assert TestOperandType(kinds, arg1, operand[0].kind) && TestOperandType(kinds, arg2, operand[1].kind);
    }
  }

  /** The 3-operand pattern as intended: the count compared with 3. */
  function TestOperandPattern3(kinds: TokenKinds, operand: seq<Token>, arg1: int, arg2: int, arg3: int): (r: PatternResult)
    ensures r != Faulted
  {
    if |operand| != 3 then WrongCount
    else if !TestOperandType(kinds, arg1, operand[0].kind) || !TestOperandType(kinds, arg2, operand[1].kind)
         || !TestOperandType(kinds, arg3, operand[2].kind) then WrongType
    else Accepted
  }

  lemma Pattern3AcceptsExactlyMatches(kinds: TokenKinds, operand: seq<Token>, arg1: int, arg2: int, arg3: int)
    ensures TestOperandPattern3(kinds, operand, arg1, arg2, arg3) == Accepted <==> Matches(kinds, operand, [arg1, arg2, arg3])
  {
    if TestOperandPattern3(kinds, operand, arg1, arg2, arg3) != Accepted && |operand| == 3 {
      assert !TestOperandType(kinds, arg1, operand[0].kind) || !TestOperandType(kinds, arg2, operand[1].kind)
        || !TestOperandType(kinds, arg3, operand[2].kind);
    }
  }

  /** TokenKindToRegisterNumber: `(byte)(tokenKind - RegisterKeywordOffset)`,
      the subtraction in 32 bits and the cast keeping the low 8 bits. */
  function TokenKindToRegisterNumber(kinds: TokenKinds, tokenKind: int32): (r: uint8)
    ensures r == (tokenKind - kinds.registerKeywordOffset) % 256
  {
    Wrap32(tokenKind - kinds.registerKeywordOffset) % 256
  }

  /** The n-th register kind after the offset is register n, for the 256
      numbers a byte holds. */
  lemma RegisterNumbersFromOffset(kinds: TokenKinds, n: int)
    requires 0 <= n < 256 && kinds.registerKeywordOffset + n < 0x8000_0000
    ensures TokenKindToRegisterNumber(kinds, kinds.registerKeywordOffset + n) == n
  {
  }
}
