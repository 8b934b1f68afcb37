/** The H-bridge driver of os/drivers/motor.c: two motors, each with two direction pins and
    an enable pin, all on one GPIO port. */
module Motor {

  datatype MotorState = Stop | Forward | Backward

  /** States of the left and the right motor. */
  datatype Motors = Motors(left: MotorState, right: MotorState)

  /** Bit numbers on the GPIO port. */
  datatype Wiring = Wiring(pin1: nat, pin2: nat, enable: nat)

  const LEFT: Wiring := Wiring(5, 4, 7)
  const RIGHT: Wiring := Wiring(2, 3, 6)
  const ALL_PINS: Port := {2, 3, 4, 5, 6, 7}

  const SET_DIR: int := 1

  const DIR_FORWARD: bv32 := 0x01
  const DIR_BACKWARD: bv32 := 0x02
  const DIR_STOP: bv32 := 0x04
  const DIR_LEFT: bv32 := 0x08
  const DIR_RIGHT: bv32 := 0x10

  // ---------- The port ----------

  /** The output bits that are high. */
  type Port = set<nat>

  datatype Write = Set(pins: Port) | Clear(pins: Port)

  function Apply(port: Port, w: Write): Port {
    match w
    case Set(pins) => port + pins
    case Clear(pins) => port - pins
  }

  /** The port after each of a sequence of writes. */
  function Ports(port: Port, writes: seq<Write>): (ports: seq<Port>)
    ensures |ports| == |writes|
    decreases |writes|
  {
    if writes == [] then []
    else
      var next := Apply(port, writes[0]);
      [next] + Ports(next, writes[1..])
  }

  function Final(port: Port, writes: seq<Write>): Port
    decreases |writes|
  {
    if writes == [] then port else Final(Apply(port, writes[0]), writes[1..])
  }

  /** A motor that is enabled has exactly one direction pin high. */
  predicate Interlocked(port: Port, m: Wiring) {
    m.enable in port ==> (m.pin1 in port <==> m.pin2 !in port)
  }

  predicate Safe(port: Port) {
    Interlocked(port, LEFT) && Interlocked(port, RIGHT)
  }

  /** The pins a motor has high in a given state. */
  function Pins(m: Wiring, s: MotorState): Port {
    match s
    case Stop => {}
    case Forward => {m.pin1, m.enable}
    case Backward => {m.pin2, m.enable}
  }

  /** The port shows exactly the states of the motors. */
  predicate Shows(port: Port, ms: Motors) {
    port * ALL_PINS == Pins(LEFT, ms.left) + Pins(RIGHT, ms.right)
  }

  // ---------- One command ----------

  /** `motors_set_dir`. */
  function SetDir(ms: Motors, dirs: bv32): Motors {
    if dirs & DIR_STOP != 0 then Motors(Stop, Stop)
    else
      var a := if dirs & DIR_FORWARD != 0 then Motors(Forward, Forward) else ms;
      var b := if dirs & DIR_BACKWARD != 0 then Motors(Backward, Backward) else a;
      var c := if dirs & DIR_LEFT != 0 then b.(left := Stop) else b;
      if dirs & DIR_RIGHT != 0 then c.(right := Stop) else c
  }

  function StartWrites(m: Wiring, s: MotorState): seq<Write> {
    match s
    case Stop => [Clear({m.pin1}), Clear({m.pin2})]
    case Forward => [Set({m.pin1}), Clear({m.pin2}), Set({m.enable})]
    case Backward => [Clear({m.pin1}), Set({m.pin2}), Set({m.enable})]
  }

  datatype Command = Command(cmd: int, value: bv32)

  function After(ms: Motors, c: Command): Motors {
    if c.cmd == SET_DIR then SetDir(ms, c.value) else ms
  }

  /** The GPIO writes of `motor_ioctl`: disable both motors, then set up and enable each. */
  function Writes(ms: Motors, c: Command): seq<Write> {
    var now := After(ms, c);
    [Clear({LEFT.enable}), Clear({RIGHT.enable})] + StartWrites(LEFT, now.left) + StartWrites(RIGHT, now.right)
  }

  lemma {:induction false} PortsConcat(port: Port, a: seq<Write>, b: seq<Write>)
    ensures Ports(port, a + b) == Ports(port, a) + Ports(Final(port, a), b)
    ensures Final(port, a + b) == Final(Final(port, a), b)
    decreases |a|
  {
    if a == [] {
      assert a + b == b;
    } else {
      assert (a + b)[1..] == a[1..] + b;
      PortsConcat(Apply(port, a[0]), a[1..], b);
    }
  }

  ghost predicate AllSafe(ports: seq<Port>) {
    forall i :: 0 <= i < |ports| ==> Safe(ports[i])
  }

  lemma PortsOfTwo(port: Port, a: Write, b: Write)
    ensures var p := Apply(port, a); var q := Apply(p, b);
            Ports(port, [a, b]) == [p, q] && Final(port, [a, b]) == q
  {
    var p := Apply(port, a);
    var q := Apply(p, b);
    assert [a, b][1..] == [b] && [b][1..] == [];
    assert Ports(p, [b]) == [q] + Ports(q, []) && Final(p, [b]) == Final(q, []);
  }

  lemma PortsOfThree(port: Port, a: Write, b: Write, c: Write)
    ensures var p := Apply(port, a); var q := Apply(p, b); var r := Apply(q, c);
            Ports(port, [a, b, c]) == [p, q, r] && Final(port, [a, b, c]) == r
  {
    var p := Apply(port, a);
    assert [a, b, c][1..] == [b, c];
    PortsOfTwo(p, b, c);
  }

  /** The part of the port that belongs to a motor. */
  function Own(m: Wiring): Port {
    {m.pin1, m.pin2, m.enable}
  }

  /** Setting up one motor while it is disabled: safe at every write if the other motor is
      safe, ends with its state on its pins, and touches no other pin. */
  ghost predicate StartsSafely(port: Port, m: Wiring, s: MotorState) {
    var final := Final(port, StartWrites(m, s));
    && AllSafe(Ports(port, StartWrites(m, s)))
    && Safe(final) && final * Own(m) == Pins(m, s) && final - Own(m) == port - Own(m)
  }

  lemma StartStopSafe(port: Port, m: Wiring)
    requires m == LEFT || m == RIGHT
    requires Safe(port) && m.enable !in port
    ensures StartsSafely(port, m, Stop)
  {
    PortsOfTwo(port, Clear({m.pin1}), Clear({m.pin2}));
  }

  lemma StartForwardSafe(port: Port, m: Wiring)
    requires m == LEFT || m == RIGHT
    requires Safe(port) && m.enable !in port
    ensures StartsSafely(port, m, Forward)
  {
    PortsOfThree(port, Set({m.pin1}), Clear({m.pin2}), Set({m.enable}));
  }

  lemma StartBackwardSafe(port: Port, m: Wiring)
    requires m == LEFT || m == RIGHT
    requires Safe(port) && m.enable !in port
    ensures StartsSafely(port, m, Backward)
  {
    PortsOfThree(port, Clear({m.pin1}), Set({m.pin2}), Set({m.enable}));
  }

  lemma StartSafe(port: Port, m: Wiring, s: MotorState)
    requires m == LEFT || m == RIGHT
    requires Safe(port) && m.enable !in port
    ensures StartsSafely(port, m, s)
  {
    match s
    case Stop => StartStopSafe(port, m);
    case Forward => StartForwardSafe(port, m);
    case Backward => StartBackwardSafe(port, m);
  }

  /** One command is safe at every write, ends with the port showing the new states, and
      leaves the rest of the port alone. */
  lemma CommandSafe(port: Port, ms: Motors, c: Command)
    requires Safe(port)
    ensures AllSafe(Ports(port, Writes(ms, c)))
    ensures var final := Final(port, Writes(ms, c));
            Safe(final) && Shows(final, After(ms, c)) && final - ALL_PINS == port - ALL_PINS
  {
    var now := After(ms, c);
    var stop := [Clear({LEFT.enable}), Clear({RIGHT.enable})];
    var left, right := StartWrites(LEFT, now.left), StartWrites(RIGHT, now.right);
    PortsOfTwo(port, stop[0], stop[1]);
    var p := Final(port, stop);
    StartSafe(p, LEFT, now.left);
    var q := Final(p, left);
    assert RIGHT.enable !in q by {
      assert RIGHT.enable !in p - Own(LEFT) && RIGHT.enable !in Own(LEFT);
    }
    StartSafe(q, RIGHT, now.right);
    PortsConcat(port, stop, left);
    PortsConcat(port, stop + left, right);
    BothSetUp(p, q, Final(q, right), now);
    assert p - ALL_PINS == port - ALL_PINS;
  }

  lemma BothSetUp(port: Port, p: Port, q: Port, ms: Motors)
    requires p * Own(LEFT) == Pins(LEFT, ms.left) && p - Own(LEFT) == port - Own(LEFT)
    requires q * Own(RIGHT) == Pins(RIGHT, ms.right) && q - Own(RIGHT) == p - Own(RIGHT)
    ensures Shows(q, ms) && q - ALL_PINS == port - ALL_PINS
  {
    assert ALL_PINS == Own(LEFT) + Own(RIGHT);
    forall x: nat
      ensures x in q * ALL_PINS <==> x in Pins(LEFT, ms.left) + Pins(RIGHT, ms.right)
      ensures x in q - ALL_PINS <==> x in port - ALL_PINS
    {
      assert x in q - Own(RIGHT) <==> x in p - Own(RIGHT);
      assert x in p - Own(LEFT) <==> x in port - Own(LEFT);
      assert x in q * Own(RIGHT) <==> x in Pins(RIGHT, ms.right);
      assert x in p * Own(LEFT) <==> x in Pins(LEFT, ms.left);
    }
  }

  lemma ClearedShows(port: Port, ms: Motors)
    ensures Safe(port - ALL_PINS)
    ensures Shows(port - ALL_PINS, ms) <==> ms == Motors(Stop, Stop)
  {
    assert (port - ALL_PINS) * ALL_PINS == {};
    assert ms.left != Stop ==> LEFT.enable in Pins(LEFT, ms.left) + Pins(RIGHT, ms.right);
    assert ms.right != Stop ==> RIGHT.enable in Pins(LEFT, ms.left) + Pins(RIGHT, ms.right);
  }

  // ---------- Every run ----------

  function RunWrites(ms: Motors, commands: seq<Command>): seq<Write>
    decreases |commands|
  {
    if commands == [] then []
    else Writes(ms, commands[0]) + RunWrites(After(ms, commands[0]), commands[1..])
  }

  function AfterAll(ms: Motors, commands: seq<Command>): Motors
    decreases |commands|
  {
    if commands == [] then ms else AfterAll(After(ms, commands[0]), commands[1..])
  }

  /** Over any run of commands, from any safe port, the interlock holds at every single
      write, and after each command the port shows the motor states. */
  lemma {:induction false} RunSafe(port: Port, ms: Motors, commands: seq<Command>)
    requires Safe(port)
    ensures AllSafe(Ports(port, RunWrites(ms, commands)))
    ensures var final := Final(port, RunWrites(ms, commands));
            && final - ALL_PINS == port - ALL_PINS
            && (commands != [] || Shows(port, ms) ==> Shows(final, AfterAll(ms, commands)))
    decreases |commands|
  {
    if commands != [] {
      var c := commands[0];
      CommandSafe(port, ms, c);
      RunSafe(Final(port, Writes(ms, c)), After(ms, c), commands[1..]);
      PortsConcat(port, Writes(ms, c), RunWrites(After(ms, c), commands[1..]));
    }
  }

  // ---------- What a direction word asks for ----------

  /** The state asked of one motor, `turn` being the bit that stops it: stop wins, then
      backward over forward, and without any of them it goes on as it was. */
  function Asked(was: MotorState, dirs: bv32, turn: bv32): MotorState {
    if dirs & (DIR_STOP | turn) != 0 then Stop
    else if dirs & DIR_BACKWARD != 0 then Backward
    else if dirs & DIR_FORWARD != 0 then Forward
    else was
  }

  /** Each motor gets what is asked of it, whatever the other one does. */
  lemma DirectionPriority(ms: Motors, dirs: bv32)
    ensures SetDir(ms, dirs) == Motors(Asked(ms.left, dirs, DIR_LEFT), Asked(ms.right, dirs, DIR_RIGHT))
  {
    assert dirs & (DIR_STOP | DIR_LEFT) != 0 <==> dirs & DIR_STOP != 0 || dirs & DIR_LEFT != 0;
    assert dirs & (DIR_STOP | DIR_RIGHT) != 0 <==> dirs & DIR_STOP != 0 || dirs & DIR_RIGHT != 0;
  }

  /** A word decides both motors, whatever they did before, exactly if it says stop, forward
      or backward, or turns both ways at once. */
  lemma DirectionDecides(dirs: bv32)
    ensures (forall a: Motors, b: Motors :: SetDir(a, dirs) == SetDir(b, dirs)) <==>
            || dirs & DIR_STOP != 0 || dirs & DIR_FORWARD != 0 || dirs & DIR_BACKWARD != 0
            || (dirs & DIR_LEFT != 0 && dirs & DIR_RIGHT != 0)
  {
    var a, b := Motors(Forward, Forward), Motors(Stop, Stop);
    assert SetDir(a, dirs) == SetDir(b, dirs) ==>
      || dirs & DIR_STOP != 0 || dirs & DIR_FORWARD != 0 || dirs & DIR_BACKWARD != 0
      || (dirs & DIR_LEFT != 0 && dirs & DIR_RIGHT != 0);
  }

  // ---------- The pins, bit by bit ----------

  /** What a command leaves on the port: bits 5, 4 and 7 are the left motor's forward, backward
      and enable pins, bits 2, 3 and 6 the right one's. */
  lemma PinsAfterCommand(port: Port, ms: Motors, c: Command)
    requires Safe(port)
    ensures var after, now := Final(port, Writes(ms, c)), After(ms, c);
            && (5 in after <==> now.left == Forward) && (4 in after <==> now.left == Backward)
            && (7 in after <==> now.left != Stop)
            && (2 in after <==> now.right == Forward) && (3 in after <==> now.right == Backward)
            && (6 in after <==> now.right != Stop)
  {
    CommandSafe(port, ms, c);
    var after, now := Final(port, Writes(ms, c)), After(ms, c);
    forall p | p in {2, 3, 4, 5, 6, 7}
      ensures p in after <==> p in Pins(LEFT, now.left) + Pins(RIGHT, now.right)
    {
      assert p in after * ALL_PINS <==> p in Pins(LEFT, now.left) + Pins(RIGHT, now.right);
    }
  }

  /** Command 1 with value 1 drives both motors forward, with 2 backward, with 4 stops them, and
      with 9 turns left: the left motor stops, the right one goes forward. */
  lemma CommandExamples(ms: Motors)
    ensures After(ms, Command(1, 1)) == Motors(Forward, Forward)
    ensures After(ms, Command(1, 2)) == Motors(Backward, Backward)
    ensures After(ms, Command(1, 4)) == Motors(Stop, Stop)
    ensures After(ms, Command(1, 9)) == Motors(Stop, Forward)
    ensures After(ms, Command(1, 17)) == Motors(Forward, Stop)
    ensures After(ms, Command(2, 1)) == ms
  {}

  // ---------- Implementation ----------

  class Driver {
    var motors: Motors
    var port: Port
    ghost var written: seq<Write>  // every GPIO write so far

    /** The state before initialisation: the motor table is static, so both are stopped. */
    constructor (port: Port)
      ensures motors == Motors(Stop, Stop) && this.port == port && written == []
    {
      motors, this.port, written := Motors(Stop, Stop), port, [];
    }

    method GpioSet(pins: Port)
      modifies this`port, this`written
      ensures port == Apply(old(port), Set(pins)) && written == old(written) + [Set(pins)]
    {
      port := port + pins;
      written := written + [Set(pins)];
    }

    method GpioClear(pins: Port)
      modifies this`port, this`written
      ensures port == Apply(old(port), Clear(pins)) && written == old(written) + [Clear(pins)]
    {
      port := port - pins;
      written := written + [Clear(pins)];
    }

    /** `motor_init` clears the pins but not the states, so the port shows the motors exactly
        if both were stopped. */
    method Init()
      modifies this`port, this`written
      ensures port == old(port) - ALL_PINS && written == old(written) + [Clear(ALL_PINS)]
      ensures Safe(port) && (Shows(port, motors) <==> motors == Motors(Stop, Stop))
    {
      GpioClear(ALL_PINS);
      ClearedShows(old(port), motors);
    }

    /** `motors_stop`. */
    method StopAll()
      modifies this`port, this`written
      ensures written == old(written) + [Clear({LEFT.enable}), Clear({RIGHT.enable})]
      ensures port == Final(old(port), [Clear({LEFT.enable}), Clear({RIGHT.enable})])
    {
      PortsOfTwo(port, Clear({LEFT.enable}), Clear({RIGHT.enable}));
      GpioClear({LEFT.enable});
      GpioClear({RIGHT.enable});
    }

    /** The loop body of `motors_start`. */
    method StartOne(m: Wiring, s: MotorState)
      modifies this`port, this`written
      ensures written == old(written) + StartWrites(m, s)
      ensures port == Final(old(port), StartWrites(m, s))
    {
      match s {
        case Stop =>
          PortsOfTwo(port, Clear({m.pin1}), Clear({m.pin2}));
          GpioClear({m.pin1});
          GpioClear({m.pin2});
        case Forward =>
          PortsOfThree(port, Set({m.pin1}), Clear({m.pin2}), Set({m.enable}));
          GpioSet({m.pin1});
          GpioClear({m.pin2});
        case Backward =>
          PortsOfThree(port, Clear({m.pin1}), Set({m.pin2}), Set({m.enable}));
          GpioClear({m.pin1});
          GpioSet({m.pin2});
      }
      if s != Stop {
        GpioSet({m.enable});
      }
    }

    /** `motors_set_dir`. */
    method SetDirection(dirs: bv32)
      modifies this`motors
      ensures motors == SetDir(old(motors), dirs)
    {
      if dirs & DIR_STOP != 0 {
        motors := Motors(Stop, Stop);
        return;
      }
      if dirs & DIR_FORWARD != 0 {
        motors := Motors(Forward, Forward);
      }
      if dirs & DIR_BACKWARD != 0 {
        motors := Motors(Backward, Backward);
      }
      if dirs & DIR_LEFT != 0 {
        motors := motors.(left := Stop);
      }
      if dirs & DIR_RIGHT != 0 {
        motors := motors.(right := Stop);
      }
    }

    /** `motor_ioctl`. */
    method Ioctl(cmd: int, value: bv32) returns (result: int)
      modifies this
      ensures result == 0
      ensures motors == After(old(motors), Command(cmd, value))
      ensures written == old(written) + Writes(old(motors), Command(cmd, value))
      ensures port == Final(old(port), Writes(old(motors), Command(cmd, value)))
    {
      ghost var now := After(motors, Command(cmd, value));
      ghost var stop := [Clear({LEFT.enable}), Clear({RIGHT.enable})];
      PortsConcat(port, stop, StartWrites(LEFT, now.left));
      PortsConcat(port, stop + StartWrites(LEFT, now.left), StartWrites(RIGHT, now.right));
      StopAll();
      if cmd == SET_DIR {
        SetDirection(value);
      }
      assert motors == now;
      StartOne(LEFT, motors.left);
      StartOne(RIGHT, motors.right);
      return 0;
    }
  }
}
