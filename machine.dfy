/** The part of x86-64 the code generators emit, as instruction values, and
    an abstract machine that runs them: the registers rax, rdi, rdx, rsp and
    rbp, the flags of the last `cmp`, and a memory of 8-byte words. Integers
    are unbounded, so the machine has no 64-bit wrap-around. */
module Machine {
  import opened Errors

  /** The condition codes of `sete`, `setne`, `setl` and `setle`. */
  datatype Cond = E | NE | L | LE

  /** One line of the emitted assembly. */
  datatype Instr =
    | IntelSyntax              // .intel_syntax noprefix
    | GlobalMain               // .globl main
    | MainLabel                // main:
    | MovImm(imm: int)         // mov rax, imm
    | MovRaxRbp                // mov rax, rbp
    | SubRaxImm(imm: int)      // sub rax, imm
    | Load                     // mov rax, [rax]
    | Store                    // mov [rdi], rax
    | PushRax                  // push rax
    | PopRdi                   // pop rdi
    | NegRax                   // neg rax
    | AddRdi                   // add rax, rdi
    | SubRdi                   // sub rax, rdi
    | ImulRdi                  // imul rax, rdi
    | Cqo                      // cqo
    | IdivRdi                  // idiv rdi
    | CmpRdi                   // cmp rax, rdi
    | SetAl(cc: Cond)          // sete al, setne al, setl al, setle al
    | MovzbRaxAl               // movzb rax, al
    | PushRbp                  // push rbp
    | MovRbpRsp                // mov rbp, rsp
    | SubRspImm(imm: int)      // sub rsp, imm
    | MovRspRbp                // mov rsp, rbp
    | PopRbp                   // pop rbp
    | Ret                      // ret

  /** The registers, the result of the last `cmp` (rax - rdi) and memory. */
  datatype State = State(rax: int, rdi: int, rdx: int, rsp: int, rbp: int, flags: int, mem: map<int, int>)

  /** The word at an address; memory never written reads as 0. */
  function Read(mem: map<int, int>, a: int): int {
    if a in mem then mem[a] else 0
  }

  /** Division truncating toward zero, as `idiv` does. */
  function TruncDiv(a: int, b: int): int
    requires b != 0
  {
    var q := (if a < 0 then -a else a) / (if b < 0 then -b else b);
    if (a < 0) == (b < 0) then q else -q
  }

  /** The remainder `idiv` leaves in rdx; it has the sign of the dividend. */
  function TruncRem(a: int, b: int): int
    requires b != 0
  {
    a - TruncDiv(a, b) * b
  }

  /** The quotient rounds toward zero: the remainder has the dividend's sign
      and is smaller than the divisor in magnitude. */
  lemma TruncDivRounds(a: int, b: int)
    requires b != 0
    ensures var r := TruncRem(a, b);
      var m := if b < 0 then -b else b;
      a == TruncDiv(a, b) * b + r && (if a >= 0 then 0 <= r < m else -m < r <= 0)
  {
    var m := if b < 0 then -b else b;
    var n := if a < 0 then -a else a;
    var q := n / m;
    assert n == q * m + n % m;
    if (a < 0) == (b < 0) {
      if a < 0 {
        assert TruncDiv(a, b) * b == (-q) * (-b);
      }
    } else {
      if a < 0 {
        assert TruncDiv(a, b) * b == (-q) * m;
      } else {
        assert TruncDiv(a, b) * b == (-q) * (-m);
      }
    }
  }

  /** The sign of a value, spread over rdx by `cqo`. */
  function SignWord(a: int): int {
    if a < 0 then -1 else 0
  }

  function Holds(cc: Cond, diff: int): bool {
    match cc
    case E => diff == 0
    case NE => diff != 0
    case L => diff < 0
    case LE => diff <= 0
  }

  /** The condition bit that `set` writes. */
  function Bit(cc: Cond, diff: int): (b: int)
    ensures b == 0 || b == 1
    ensures b == 1 <==> Holds(cc, diff)
  {
    if Holds(cc, diff) then 1 else 0
  }

  /** rax with its low byte replaced by `b`. */
  function WithLowByte(x: int, b: int): (r: int)
    requires 0 <= b < 256
    ensures LowByteOf(r) == b
  {
    var y := x - x % 256 + b;
    assert x - x % 256 == 256 * (x / 256);
    assert (256 * (x / 256) + b) % 256 == b;
    y
  }

  /** The low byte of rax, zero-extended. */
  function LowByteOf(x: int): (r: int)
    ensures 0 <= r < 256
  {
    x % 256
  }

  /** One instruction; None when `idiv` faults (a zero divisor, or rdx that is
      not the sign of rax). Assembler directives and the label do nothing.
      `set` replaces the low byte of rax and `movzb` keeps only that byte. */
  function Step(s: State, i: Instr): (r: Option<State>)
    ensures r.None? <==> i == IdivRdi && (s.rdi == 0 || s.rdx != SignWord(s.rax))
  {
    match i
    case IntelSyntax => Some(s)
    case GlobalMain => Some(s)
    case MainLabel => Some(s)
    case MovImm(n) => Some(s.(rax := n))
    case MovRaxRbp => Some(s.(rax := s.rbp))
    case SubRaxImm(n) => Some(s.(rax := s.rax - n))
    case Load => Some(s.(rax := Read(s.mem, s.rax)))
    case Store => Some(s.(mem := s.mem[s.rdi := s.rax]))
    case PushRax => Some(s.(rsp := s.rsp - 8, mem := s.mem[s.rsp - 8 := s.rax]))
    case PopRdi => Some(s.(rdi := Read(s.mem, s.rsp), rsp := s.rsp + 8))
    case NegRax => Some(s.(rax := -s.rax))
    case AddRdi => Some(s.(rax := s.rax + s.rdi))
    case SubRdi => Some(s.(rax := s.rax - s.rdi))
    case ImulRdi => Some(s.(rax := s.rax * s.rdi))
    case Cqo => Some(s.(rdx := SignWord(s.rax)))
    case IdivRdi =>
      if s.rdi == 0 || s.rdx != SignWord(s.rax) then None
      else
        Some(s.(rax := TruncDiv(s.rax, s.rdi), rdx := TruncRem(s.rax, s.rdi)))
    case CmpRdi => Some(s.(flags := s.rax - s.rdi))
    case SetAl(cc) => Some(s.(rax := WithLowByte(s.rax, Bit(cc, s.flags))))
    case MovzbRaxAl => Some(s.(rax := LowByteOf(s.rax)))
    case PushRbp => Some(s.(rsp := s.rsp - 8, mem := s.mem[s.rsp - 8 := s.rbp]))
    case MovRbpRsp => Some(s.(rbp := s.rsp))
    case SubRspImm(n) => Some(s.(rsp := s.rsp - n))
    case MovRspRbp => Some(s.(rsp := s.rbp))
    case PopRbp => Some(s.(rbp := Read(s.mem, s.rsp), rsp := s.rsp + 8))
    case Ret => Some(s.(rsp := s.rsp + 8))
  }

  /** A straight-line piece of code, from the first instruction to the last. */
  function Run(code: seq<Instr>, s: State): Option<State>
    decreases |code|
  {
    if |code| == 0 then Some(s)
    else
      match Step(s, code[0])
      case None => None
      case Some(t) => Run(code[1..], t)
  }

  /** Running two pieces one after the other is running their concatenation. */
  lemma {:induction false} RunAppend(a: seq<Instr>, b: seq<Instr>, s: State)
    ensures Run(a + b, s) ==
      match Run(a, s)
      case None => None
      case Some(t) => Run(b, t)
    decreases |a|
  {
    if a == [] {
      assert a + b == b;
    } else {
      assert (a + b)[0] == a[0];
      assert (a + b)[1..] == a[1..] + b;
      match Step(s, a[0])
      case None =>
      case Some(t) => RunAppend(a[1..], b, t);
    }
  }

  /** The words an instruction adds to the stack: one for a push, minus one
      for a pop. */
  function StackMove(i: Instr): int {
    if i == PushRax || i == PushRbp then 1
    else if i == PopRdi || i == PopRbp then -1
    else 0
  }

  /** The stack depth a piece of code leaves, from depth `d`. */
  function Depth(code: seq<Instr>, d: int): int
    decreases |code|
  {
    if code == [] then d else Depth(code[1..], d + StackMove(code[0]))
  }

  /** No pop of the code takes a word it did not push itself, starting at
      depth `d`. */
  predicate NeverBelow(code: seq<Instr>, d: int)
    decreases |code|
  {
    code != [] ==>
      var d' := d + StackMove(code[0]);
      d' >= 0 && NeverBelow(code[1..], d')
  }

  lemma {:induction false} DepthAppend(a: seq<Instr>, b: seq<Instr>, d: int)
    ensures Depth(a + b, d) == Depth(b, Depth(a, d))
    ensures NeverBelow(a + b, d) <==> NeverBelow(a, d) && NeverBelow(b, Depth(a, d))
    decreases |a|
  {
    if a == [] {
      assert a + b == b;
    } else {
      assert (a + b)[0] == a[0];
      assert (a + b)[1..] == a[1..] + b;
      DepthAppend(a[1..], b, d + StackMove(a[0]));
    }
  }
}
