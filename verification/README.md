# Staubli robot driver: model and proofs

The repository drives a Staubli arm from ROS 2. A VAL3 task on the robot controller publishes a state
frame every 4 ms, drains a UDP socket for command frames and feeds `movejSync`; a C++ driver on the
other side keeps the latest state, echoes its sequence number in every command and switches between
STOP and JOINT_POSITION. This project models both programs, the bytes between them and a network that
may lose, repeat and reorder those bytes, and proves what the protocol promises.

`dafny verify dfyconfig.toml` checks everything.

## How it is organised

Each program part exists twice: as functions on values, which the theorems are about, and as methods
that update arrays and object fields statement by statement in the order of the source, proved equal to
those functions.

| module | part |
|---|---|
| `Wire`, `Serialization` | little-endian words, single-precision arrays, flag words; the primitive (de)serializers on buffers |
| `Messages`, `MessageObjects` | the three C++ messages as values and as classes |
| `Val3Codec`, `StateUpdate`, `CrossCodec`, `WireFormat` | the controller's codec, its state update, agreement of both codecs, and the format byte by byte |
| `Sequence`, `SocketRead` | wrapped counters and the age test; the two-attempt drain of the socket |
| `ControlLoop`, `ControlTask` | one iteration of the control task as a step, and as the imperative loop |
| `ControlInvariants`, `ControlRuns`, `ControlEffects` | the loop-head invariant, the theorems about whole runs, and what each cycle does exactly |
| `Subscriber`, `DriverState`, `DriverObject` | the latest-value subscriber and the driver object |
| `HardwareState`, `HardwareObject` | the hardware interface and its mode switch |
| `Protocol`, `ProtocolSafety`, `ProtocolHandshake`, `ProtocolAlias` | everything composed; safety; the fault handshake; the runs that show why their conditions are needed |

What comes from outside is a parameter: power, safety and settled readings, the range test, the status
of `movejSync`, which datagrams arrive and when, whether a lock is contended, whether sockets open, close
or accept a frame, and the clock, which is never below the staleness timeout. Of the motion library it is
assumed that `movejSync` is not started when the control task begins, that begin starts it, end stops it,
and a started one never reports -1 by itself. The two casts between double and float are arbitrary
functions; where needed, narrowing a widened float gives it back.

History variables record what the programs do not keep: the frames a subscriber has accepted
(`accepted`), which of them the cached and the last returned state are (`currentAt`, `returnedAt`), the
library calls made (`issued`), and, in the composed system, unbounded counters and which message
answers which frame. No program branch depends on them.

The composed system publishes and acts in separate events, so an answer to a frame may arrive within
the same cycle. Only frames of the two programs travel on its network. The runs `ProtocolAlias.StaleMove`
builds connect, stop, switch, pass through a hard stop and move, so the premises of
`ProtocolSafety.MovesAnswerOwnFrames` can be met.

## Where code and documentation differ

The model follows the code.

- `read_message` is documented (staubli_robot_driver/include/staubli_robot_driver/real_time_socket_subscriber.hpp:73-91) to fail while nothing was received; with the box free it succeeds with the default message (`Subscriber.FirstReadNeedsNoMessage`).
- A remark in `prepare_command_mode_switch` (staubli_robot_driver/src/staubli_hardware_interface.cpp:527-532) says INVALID means acceleration interfaces only; the first match decides (`HardwareState.InvalidExactly`, `HardwareState.AccelerationFirst`).
- `lost_packages` is one too high across a wrap (staubli_robot_driver/src/real_time_socket_subscriber.cpp:131-134, `Subscriber.LossIsExactUnlessWrapped`).
- `encodeHeader` writes the sequence number into the payload-size slot (staubli_robot_driver/val3/userapp/ros2_server/Serialization/encodeHeader.pgx:60, `CrossCodec.HeadAgrees`).
- The first size test of `decodeRobotCommandMsg` is overwritten (staubli_robot_driver/val3/userapp/ros2_server/Serialization/decodeRobotCommandMsg.pgx:28-34, `Val3Codec.DecodeRobotCommandMsgFrom`).
- The diagnostic decoder tests the header it had before (staubli_robot_driver/src/communication/messages.cpp:424-437, `Messages.DiagnosticTestIsStale`).
- The in-error bit of a published frame is never set: the flag is cleared before the loop head that would publish it (staubli_robot_driver/val3/userapp/ros2_server/controlTask.pgx:100, 298, `ControlRuns.FramesTellTheHead`). What tells the driver of a fault is control mode 0.

## Claims that hold only under a condition

- A position command is executed at most 25 cycles after the frame it answers (5 with the arm in motion). This needs both halves of its condition. A hard stop restarts the numbering (staubli_robot_driver/val3/userapp/ros2_server/controlTask.pgx:300), so a delayed command of before it can pass the age test (`ProtocolAlias.StaleMove`); so can one that is older than 65536 cycles (`ProtocolAlias.StaleMoveInEpoch`). Without a hard stop between and below 65536 cycles the bound holds, exactly (`ProtocolSafety.MovesAnswerOwnFrames`).
- A driver in position mode does not answer a frame of control mode 0 with a position command. `connect` moves the echoed number through its polls (staubli_robot_driver/src/robot_driver.cpp:178, 381) while the hardware interface keeps the state and the mode it had, so the first write after a connection may do that (`ProtocolAlias.FaultUnheard`). Activation sets the mode back to STOP, so it takes a write between configuring and activating. It does not happen once a state has been read since the connection (`ProtocolHandshake.FaultHeardExactly`, `ProtocolHandshake.ConnectionHandshake`).

## Model

| member | source | states |
|---|---|---|
| `ProtocolSafety.MovesAnswerOwnFrames` | staubli_robot_driver/val3/userapp/ros2_server/controlTask.pgx:87-175 | Composed safety over every run of controller, lossy and reordering network and driver: each position given to movejSync is, in single precision, the reference of a NaN-free position command written earlier in JOINT_POSITION mode with neither error bit nor INVALID in the state stored; that command carries the number of a frame the controller had published before it; the wrapped distance is within 25 (5 in motion); with no hard stop between, the age in cycles is within the limit if and only if it is below 65536 |
| `ProtocolSafety.InvAlways` | staubli_robot_driver/val3/userapp/ros2_server/controlTask.pgx:72-325 | The composed invariant (frames carry their counters, commands echo emitted frames, the queue and the held command are such commands, the driver traces its echo) holds after every run |
| `ProtocolSafety.StepKeeps` | staubli_robot_driver/val3/userapp/ros2_server/controlTask.pgx:72-325 | Every event of the system keeps the composed invariant |
| `ProtocolSafety.ActKeeps` | staubli_robot_driver/val3/userapp/ros2_server/controlTask.pgx:113-320 | Reading, deciding, acting and a possible hard stop keep the composed invariant |
| `ProtocolSafety.EmitKeeps` | staubli_robot_driver/val3/userapp/ros2_server/controlTask.pgx:83-111 | Publishing keeps the composed invariant and numbers the frame with the next counter modulo 65536 |
| `ProtocolSafety.EmitsTheCyclesFrame` | staubli_robot_driver/val3/userapp/ros2_server/controlTask.pgx:83-111 | The frame published depends on the loop head and the readings only, so publishing ahead of the rest of the cycle yields the cycle's own frame |
| `ProtocolSafety.DecidesOnCurrent` | staubli_robot_driver/val3/userapp/ros2_server/controlTask.pgx:117-206 | The command a cycle goes by is the last of at most two messages taken from the queue, or the held one, decoded as it was sent |
| `ProtocolSafety.DecideReads` | staubli_robot_driver/val3/userapp/ros2_server/Comm/readData.pgx:18-52 | In a cycle with full-size datagrams, min(q,2) are consumed, the last one is in the buffer, and data is new exactly when q is not 0 |
| `ProtocolSafety.DecodedAsSent` | staubli_robot_driver/val3/userapp/ros2_server/Serialization/decodeRobotCommandMsg.pgx:28-108 | Every command the driver can send is accepted by the controller with its sequence number, type and references |
| `ProtocolSafety.PollsTrack` | staubli_robot_driver/src/robot_driver.cpp:166-188 | Whatever frames arrive while connecting, every accepted state carries the number of the frame it came from |
| `ProtocolSafety.AttachTracks` | staubli_robot_driver/src/robot_driver.cpp:52-244 | A connection attempt leaves a subscriber that knows exactly the frames that reached it on this connection |
| `ProtocolSafety.AttachKeeps` | staubli_robot_driver/src/robot_driver.cpp:52-244 | Connecting, in every outcome, keeps the composed invariant; connected implies a state has been returned on this connection |
| `ProtocolSafety.ArrivalKeeps` | staubli_robot_driver/src/real_time_socket_subscriber.cpp:87-102 | A frame arriving at the driver, late, twice or out of order, keeps the composed invariant |
| `ProtocolSafety.LocalKeeps` | staubli_robot_driver/src/staubli_hardware_interface.cpp:395-415 | Reads, switches, activation and clean-up keep the composed invariant |
| `ProtocolSafety.EchoIsEmitted` | staubli_robot_driver/src/robot_driver.cpp:379-381 | The number a connected driver echoes is that of a frame the controller has emitted |
| `ProtocolSafety.WrittenCommand` | staubli_robot_driver/src/staubli_hardware_interface.cpp:417-496 | Any frame a write puts on the network is a stop or position command with the protocol's header, the last valid number and no NaN reference |
| `ProtocolSafety.WriteKeeps` | staubli_robot_driver/src/staubli_hardware_interface.cpp:437-441 | A write keeps the composed invariant: its command echoes an emitted frame |
| `ProtocolSafety.ErrorKeeps` | staubli_robot_driver/src/staubli_hardware_interface.cpp:229-244 | The stop sent while handling an error keeps the composed invariant |
| `ProtocolSafety.EmittedBy` | staubli_robot_driver/val3/userapp/ros2_server/controlTask.pgx:103-107 | Every frame on the network was published by the controller in an earlier event, at the counter of its tag |
| `ProtocolSafety.SentBy` | staubli_robot_driver/src/robot_driver.cpp:304-351 | Every command on the network was sent by a connected driver in an earlier event and echoes the state it had last returned |
| `ProtocolSafety.WritesPositions` | staubli_robot_driver/src/staubli_hardware_interface.cpp:426-445 | A position command on the network comes from a write in position mode with neither error bit nor INVALID in the stored state |
| `ProtocolSafety.CountersCount` | staubli_robot_driver/val3/userapp/ros2_server/controlTask.pgx:300-307 | Epochs count hard stops, and within one epoch the unbounded counter counts completed cycles |
| `ProtocolSafety.AgeWithinLimit` | staubli_robot_driver/val3/userapp/ros2_server/Comm/computeSequenceDelay.pgx:10-15 | A wrapped distance within a limit bounds the true age exactly while that age is below 65536 |
| `ProtocolSafety.MoveAnswers` | staubli_robot_driver/val3/userapp/ros2_server/controlTask.pgx:143-175 | From any state with the composed invariant, the command a move executes is a sent position command within the wrapped limit |
| `ProtocolHandshake.PositionsHearFaults` | staubli_robot_driver/src/staubli_hardware_interface.cpp:426-441 | Fault handshake over the network: every position command ever sent answers a frame published before; if the hardware interface had read a state since the connection, that frame was published with control mode not 0, and between any earlier hard stop and its publication the controller had accepted a STOP |
| `ProtocolHandshake.FaultHeardExactly` | staubli_robot_driver/src/staubli_hardware_interface.cpp:417-496 | In position mode with numeric commands a delivered write answers the frame echoed; after a read since the connection it is a position command if and only if that frame shows a control mode other than 0, and without one if and only if the older state stored shows no fault |
| `ProtocolHandshake.LatestFrameIsRead` | staubli_robot_driver/src/staubli_hardware_interface.cpp:395-415 | In the composed system a connected driver whose last frame arrived less than 100 ms ago reads that very frame with OK when the box is free, and echoes its number |
| `ProtocolHandshake.StoredIsEchoed` | staubli_robot_driver/src/staubli_hardware_interface.cpp:404-411 | With a connected driver, a state has been read since the connection if and only if the state stored comes from the frame echoed, as read on this connection; and then it is that state |
| `ProtocolHandshake.ConnectionHandshake` | staubli_robot_driver/src/robot_driver.cpp:166-188 | After connecting on a frame that shows control mode 0, the next delivered write in position mode is a position command answering that frame if and only if no read came between and the state stored before shows no fault |
| `ProtocolHandshake.StepTells` | staubli_robot_driver/src/robot_driver.cpp:353-383 | A read brings the stored state up to date; arrivals, writes, switches and failed reads keep it so; only connecting and disconnecting end that |
| `ProtocolHandshake.WritesExactly` | staubli_robot_driver/src/staubli_hardware_interface.cpp:417-496 | What a delivered write of a connected driver in position mode with numeric commands sends: a stop exactly when the stored state shows a fault, else a position command |
| `ProtocolHandshake.ErrorAnswers` | staubli_robot_driver/src/staubli_hardware_interface.cpp:229-244 | Handling an error sends one stop answering the frame echoed if and only if connected and delivered |
| `ProtocolHandshake.StoppedUntilStop` | staubli_robot_driver/val3/userapp/ros2_server/controlTask.pgx:186-206 | In the composed system, once the controller is in mode 0 it stays there until a cycle accepts a STOP |
| `ProtocolHandshake.FrameShowsMode` | staubli_robot_driver/val3/userapp/ros2_server/controlTask.pgx:99-107 | A published frame shows the mode of the loop head that published it |
| `ProtocolHandshake.ConnectsOnce` | staubli_robot_driver/src/robot_driver.cpp:160-244 | From any driver state, one fresh state frame of the protocol during the polls is enough to connect, and its number becomes the one echoed |
| `ProtocolAlias.FaultUnheard` | staubli_robot_driver/src/robot_driver.cpp:178 | The handshake fails without a read since the connection: a run whose last event is a position command answering a frame, received while connecting, that shows control mode 0 |
| `ProtocolAlias.StaleMoveInEpoch` | staubli_robot_driver/val3/userapp/ros2_server/Comm/getNextSequenceNumber.pgx:8-12 | The age bound fails past 65536 cycles: for every m > 0 a run without a hard stop whose last cycle moves to a position answering the first frame, 65536 m + 1 cycles later |
| `ProtocolAlias.DeliveredPositionMoves` | staubli_robot_driver/val3/userapp/ros2_server/controlTask.pgx:143-206 | With a ready arm and mode 1, a delivered position command is executed if and only if its number is at most 25 behind modulo 65536 and the target is in range, whatever its epoch |
| `ProtocolAlias.StaleMove` | staubli_robot_driver/val3/userapp/ros2_server/controlTask.pgx:300-307 | The age bound fails across a hard stop: for every n a run whose last cycle moves to a position answering the first frame, published more than n cycles before |
| `ProtocolAlias.CommandDecides` | staubli_robot_driver/val3/userapp/ros2_server/controlTask.pgx:117-206 | One command at an empty queue with the arm at rest: an error exactly when its number is more than 25 behind, otherwise its mode is taken |
| `ProtocolAlias.IdleDecides` | staubli_robot_driver/val3/userapp/ros2_server/controlTask.pgx:113-206 | A cycle without datagrams and without a command goes to mode 0 without an error and changes nothing else |
| `ProtocolAlias.PositionMoves` | staubli_robot_driver/val3/userapp/ros2_server/Control/updateJointPositionControl.pgx:66-103 | Position control entered from mode 1 moves to the commanded target if and only if it is in range |
| `ProtocolAlias.WriteSends` | staubli_robot_driver/src/staubli_hardware_interface.cpp:417-496 | A connected driver in a supported mode, with no fault shown and numeric references, delivers the command of its mode |
| `ControlInvariants.HeadInvariant` | staubli_robot_driver/val3/userapp/ros2_server/controlTask.pgx:72-320 | At every loop head of every run: error flag clear, mode in 0..2 and equal to the previous mode, sequence number in 0..65535, command valid exactly when control is active, delay 1000 or exact and at most 25, mode 2 only with a valid type-2 command, movejSync started exactly in mode 2 |
| `ControlInvariants.StartsInStop` | staubli_robot_driver/val3/userapp/ros2_server/controlTask.pgx:22-39 | The loop begins in mode 1 with no command, number 0 and delay 1000 |
| `ControlInvariants.CycleKeepsHead` | staubli_robot_driver/val3/userapp/ros2_server/controlTask.pgx:72-320 | One iteration from any loop head restores the loop-head invariant |
| `ControlInvariants.EncodeNeverFails` | staubli_robot_driver/val3/userapp/ros2_server/Serialization/encodeRobotStateMsg.pgx:30-60 | An initialised message with a number that is not negative is always encoded |
| `ControlInvariants.Published` | staubli_robot_driver/val3/userapp/ros2_server/controlTask.pgx:83-111 | Publishing advances the number modulo 65536, keeps the command and fails exactly when the socket refuses |
| `ControlInvariants.Received` | staubli_robot_driver/val3/userapp/ros2_server/controlTask.pgx:117-141 | What reading and decoding can change: without an error, the command is valid exactly when control is active, and a new one is the decoded datagram |
| `ControlInvariants.Watched` | staubli_robot_driver/val3/userapp/ros2_server/controlTask.pgx:143-175 | After the watchdog, no error means the delay is the exact wrapped age, within 25 (5 in motion) for a valid command |
| `ControlInvariants.Selected` | staubli_robot_driver/val3/userapp/ros2_server/controlTask.pgx:177-206 | Mode selection and interlocks: without an error the mode is the command's, modes change only through mode 1, and leaving mode 1 needs the arm at rest |
| `ControlInvariants.DecideKeeps` | staubli_robot_driver/val3/userapp/ros2_server/controlTask.pgx:83-206 | From any loop head the mode of the cycle is settled as the previous two rows say, whatever arrives |
| `ControlInvariants.DecideTraces` | staubli_robot_driver/val3/userapp/ros2_server/controlTask.pgx:117-141 | The command of a decided cycle is the one held before or the datagram just decoded |
| `ControlInvariants.FinishRestores` | staubli_robot_driver/val3/userapp/ros2_server/controlTask.pgx:211-319 | Acting and error handling restore the loop-head invariant; a hard stop clears command, numbering and queue |
| `ControlInvariants.JointPositionObeys` | staubli_robot_driver/val3/userapp/ros2_server/Control/updateJointPositionControl.pgx:36-119 | Position control begins, moves and ends movejSync only as the library allows, and without an error leaves it running |
| `ControlRuns.RunObeysLibrary` | staubli_robot_driver/val3/userapp/ros2_server/controlTask.pgx:211-319 | Over any run movejSync is begun only when not started, moved and ended only when started, and is started at a loop head exactly in mode 2 |
| `ControlRuns.CycleObeysLibrary` | staubli_robot_driver/val3/userapp/ros2_server/controlTask.pgx:211-319 | One cycle from any loop head uses the library by its rule |
| `ControlRuns.NeverStartedTwice` | staubli_robot_driver/val3/userapp/ros2_server/Control/updateJointPositionControl.pgx:66-78 | The branch that finds movejSync already started on a first call is unreachable in every run |
| `ControlRuns.MovesAreSafe` | staubli_robot_driver/val3/userapp/ros2_server/Control/updateJointPositionControl.pgx:38-103 | Every move in every run: power on, no safety stop, a valid type-2 command, its own target, in range, and a delay within 25 (5 in motion) |
| `ControlRuns.JointPositionMoves` | staubli_robot_driver/val3/userapp/ros2_server/Control/updateJointPositionControl.pgx:38-103 | A move is issued only with motion possible, a valid type-2 command and an in-range target, which is the one given |
| `ControlRuns.OtherCyclesStop` | staubli_robot_driver/val3/userapp/ros2_server/controlTask.pgx:211-293 | Every cycle that does not end in mode 2 has issued stopMove and resetMotion as its last acts |
| `ControlRuns.ModeZeroStep` | staubli_robot_driver/val3/userapp/ros2_server/controlTask.pgx:186-206 | From mode 0 a cycle ends in mode 0 or accepts a STOP it received in that cycle |
| `ControlRuns.ModeTwoEntry` | staubli_robot_driver/val3/userapp/ros2_server/controlTask.pgx:193-206 | Mode 2 is entered only from mode 1, by a command received in that cycle, with the arm settled |
| `ControlRuns.StaysStopped` | staubli_robot_driver/val3/userapp/ros2_server/controlTask.pgx:186-206 | Once a cycle has ended in mode 0 every later one does until one accepts a STOP |
| `ControlRuns.RestartInterlock` | staubli_robot_driver/val3/userapp/ros2_server/controlTask.pgx:186-319 | Between a hard stop and any later position cycle there are a cycle that accepts a STOP received after it and then a change from mode 1 to 2 with the arm settled |
| `ControlRuns.HardStopEndsInZero` | staubli_robot_driver/val3/userapp/ros2_server/controlTask.pgx:280-314 | A hard stop ends in mode 0 with no valid command, numbering restarted and an empty queue |
| `ControlRuns.SilentStep` | staubli_robot_driver/val3/userapp/ros2_server/controlTask.pgx:143-191 | Without a new command position control ends or the delay grows by one, across the wrap of the numbering |
| `ControlRuns.WatchdogResponds` | staubli_robot_driver/val3/userapp/ros2_server/controlTask.pgx:144-191 | After n silent cycles from mode 2 with delay plus n above the limit, the mode is 0 and movejSync is ended |
| `ControlRuns.WatchdogDeadlines` | staubli_robot_driver/val3/userapp/ros2_server/controlTask.pgx:156-174 | Silence ends position control by the 26th cycle, by the 6th if the arm moves throughout |
| `ControlRuns.FramesTellTheHead` | staubli_robot_driver/val3/userapp/ros2_server/controlTask.pgx:86-107 | The driver reads from each frame the head's mode and delay, the next number and an in-error bit that is never set; a frame is missing only if the socket refuses it, and then the cycle is a hard stop |
| `ControlRuns.FaultIsPublished` | staubli_robot_driver/val3/userapp/ros2_server/controlTask.pgx:294-319 | After a hard stop every frame shows control mode 0 until a STOP has been accepted |
| `ControlEffects.PositionCyclesMove` | staubli_robot_driver/val3/userapp/ros2_server/Control/updateJointPositionControl.pgx:66-103 | Every cycle of every run that ends in mode 2 hands the target of the command held to movejSync, and asks nothing else of the library when position control continues; when it starts, a reset and a begin come first, in that order |
| `ControlEffects.StopCyclesStop` | staubli_robot_driver/val3/userapp/ros2_server/controlTask.pgx:211-232 | Every other cycle that is no hard stop ends movejSync if it was running, then stops and resets the motion, and asks nothing else |
| `ControlEffects.MovesExactly` | staubli_robot_driver/val3/userapp/ros2_server/Control/updateJointPositionControl.pgx:38-103 | In every run a cycle moves to a position if and only if the link is sound, the mode asked for may be entered or kept and is position control, motion is possible, and the position is the in-range target of the command in hand |
| `ControlEffects.HardStopsAct` | staubli_robot_driver/val3/userapp/ros2_server/controlTask.pgx:211-293 | Every hard stop of every run asks exactly this of the library: what its mode began, the move if the target is in range, an end if movejSync runs, then stop and reset |
| `ControlEffects.HeadsExactly` | staubli_robot_driver/val3/userapp/ros2_server/controlTask.pgx:72-320 | Over every run each loop head is determined, field by field, by the one before and the cycle between: number, command, header, mode, delay, queue and library state, or the reset values after a hard stop |
| `ControlTask.ControlTask.constructor` | staubli_robot_driver/val3/userapp/ros2_server/controlTask.pgx:22-63 | The loop starts in mode 1 with no command, number 0 and delay 1000 |
| `ControlTask.ControlTask.PublishState` | staubli_robot_driver/val3/userapp/ros2_server/controlTask.pgx:83-111 | The publishing statements compute the specified message, frame and error flag and leave the rest alone |
| `ControlTask.ControlTask.ReceiveCommand` | staubli_robot_driver/val3/userapp/ros2_server/controlTask.pgx:117-141 | The receiving statements compute the specified command, mode, flags and queue |
| `ControlTask.ControlTask.CheckStreamInPlace` | staubli_robot_driver/val3/userapp/ros2_server/controlTask.pgx:143-175 | The three separate tests of the watchdog amount to one: negative, or above the limit of the arm's motion |
| `ControlTask.ControlTask.SelectMode` | staubli_robot_driver/val3/userapp/ros2_server/controlTask.pgx:177-206 | Validity test, mode extraction and both interlocks in place |
| `ControlTask.ControlTask.ExecuteMotion` | staubli_robot_driver/val3/userapp/ros2_server/controlTask.pgx:211-269 | The motion branches issue exactly the specified library calls in order |
| `ControlTask.ControlTask.HandleErrors` | staubli_robot_driver/val3/userapp/ros2_server/controlTask.pgx:280-314 | The hard stop resets the specified fields, the socket and the library, and nothing without an error |
| `ControlTask.ControlTask.RunCycle` | staubli_robot_driver/val3/userapp/ros2_server/controlTask.pgx:72-320 | One loop iteration from a loop head, statement by statement, is one step of the specified state machine with its frame and library calls, each within the library's rule |
| `ControlTask.ControlTask.Run` | staubli_robot_driver/val3/userapp/ros2_server/controlTask.pgx:72-325 | The whole loop produces the specified frames and state and issues exactly the library calls of the run, each within the library's rule |
| `ControlTask.UpdateJointPositionControl` | staubli_robot_driver/val3/userapp/ros2_server/Control/updateJointPositionControl.pgx:36-119 | The guarded calls and early returns issue exactly the specified library calls and error |
| `ControlTask.StopJointPositionControl` | staubli_robot_driver/val3/userapp/ros2_server/Control/stopJointPositionControl.pgx:23-29 | Ends movejSync exactly when it is started, and never reports an error |
| `ControlTask.UpdateJointVelocityControl` | staubli_robot_driver/val3/userapp/ros2_server/Control/updateJointVelocityControl.pgx:25-62 | Velocity control always reports an error, after a reset where the source has one |
| `ControlRuns.HardStopsExactly` | staubli_robot_driver/val3/userapp/ros2_server/controlTask.pgx:83-311 | In every run a cycle is a hard stop if and only if its frame is refused, its datagram or command is unusable or too old, the mode asked for is unsupported or may not be entered, or position control cannot go on |
| `ControlRuns.FinishExactly` | staubli_robot_driver/val3/userapp/ros2_server/controlTask.pgx:208-281 | The second half of a cycle ends in a hard stop if and only if the first half failed, the mode is above 2, or position control meets no motion, an out-of-range target or an error of movejSync |
| `ControlRuns.SettledExactly` | staubli_robot_driver/val3/userapp/ros2_server/controlTask.pgx:143-206 | Watchdog and interlocks raise an error if and only if the command is older than its limit, of an unknown type, changes mode without a stop, or starts while the arm moves |
| `ControlRuns.LibraryReady` | staubli_robot_driver/val3/userapp/ros2_server/controlTask.pgx:233-243 | A cycle that continues position control finds movejSync running |
| `Sequence.DelayOfTrueAge` | staubli_robot_driver/val3/userapp/ros2_server/Comm/computeSequenceDelay.pgx:10-15 | For every send counter and true age up to 65535 the delay is the age or negative, negative if and only if the age is 5536 or more and the numbering wrapped between, so every limit below 5536 trips exactly when the age exceeds it |
| `Sequence.TripsExactly` | staubli_robot_driver/val3/userapp/ros2_server/Comm/computeSequenceDelay.pgx:10-15 | For any two 16-bit numbers the trip test is exact about their distance modulo 65536 |
| `Sequence.DistanceModulo` | staubli_robot_driver/val3/userapp/ros2_server/Comm/getNextSequenceNumber.pgx:8-12 | Distances of wrapped counters equal the wrapped distance of the unbounded ones |
| `Sequence.GetNextSequenceNumber` | staubli_robot_driver/val3/userapp/ros2_server/Comm/getNextSequenceNumber.pgx:8-12 | The counter advances modulo 65536 and stays in range |
| `Sequence.ComputeSequenceDelay` | staubli_robot_driver/val3/userapp/ros2_server/Comm/computeSequenceDelay.pgx:10-15 | The difference, corrected by 65536 only when below -60000 |
| `SocketRead.ReadTakesNewest` | staubli_robot_driver/val3/userapp/ros2_server/Comm/readData.pgx:18-52 | With q full-size datagrams min(q,2) are consumed, data is new exactly when q is not 0, and the last consumed is in the buffer |
| `SocketRead.ReadFailsExactly` | staubli_robot_driver/val3/userapp/ros2_server/Comm/readData.pgx:28-52 | The read fails exactly when one of the first two datagrams is neither empty nor full size, and then reports no data |
| `SocketRead.BacklogDrains` | staubli_robot_driver/val3/userapp/ros2_server/Comm/readData.pgx:18-52 | With at most one arrival per cycle a backlog shrinks every cycle to empty, after which each cycle acts on the newest command |
| `SocketRead.OnceExactly` | staubli_robot_driver/val3/userapp/ros2_server/Comm/readDataOnce.pgx:14-28 | One attempt takes one datagram if there is one and overwrites the front of the array with it; new data exactly when it fills the array, an error exactly when it is shorter and not empty |
| `SocketRead.ReadConsumes` | staubli_robot_driver/val3/userapp/ros2_server/Comm/readData.pgx:28-52 | A read takes two datagrams unless the first fails or is the only one, and has new data exactly when one of them fills the array and none fails |
| `SocketRead.TwoAttempts` | staubli_robot_driver/val3/userapp/ros2_server/Comm/readData.pgx:28-52 | The attempt loop with its early exits equals two attempts, the second made unless the first failed |
| `SocketRead.UdpSocket.ReadInto` | staubli_robot_driver/val3/userapp/ros2_server/Comm/readData.pgx:18-52 | The loop on the shared array and flags computes the specified queue, array and flags |
| `SocketRead.UdpSocket.ReadOnceInto` | staubli_robot_driver/val3/userapp/ros2_server/Comm/readDataOnce.pgx:14-28 | One attempt: new data exactly for a full-size datagram, an error for a shorter one that is not empty |
| `CrossCodec.StateFramesAgree` | staubli_robot_driver/val3/userapp/ros2_server/Serialization/encodeRobotStateMsg.pgx:54-217 | Every state frame the controller can build is accepted by the C++ decoder, which reads the same number, delay, modes, six status bits, six valid bits and, in single precision, the three valid arrays |
| `CrossCodec.CommandFramesAgree` | staubli_robot_driver/val3/userapp/ros2_server/Serialization/decodeRobotCommandMsg.pgx:28-108 | Every frame of the C++ command serializer is accepted by the controller if and only if magic and version are the protocol's, with the same number, type, six references and four analog outputs; a refused one leaves the command but for the type |
| `CrossCodec.HeadAgrees` | staubli_robot_driver/val3/userapp/ros2_server/Serialization/encodeRobotStateMsg.pgx:126-145 | The scalars and flag words of the controller's frame are read at the C++ offsets; the payload-size slot holds the sequence number |
| `CrossCodec.FlagsAgree` | staubli_robot_driver/val3/userapp/ros2_server/Serialization/encodeRobotStateMsg.pgx:62-114 | The six status bits and six valid bits mean the same on both sides |
| `CrossCodec.EncodedStateReads` | staubli_robot_driver/src/communication/messages.cpp:126-202 | What the C++ decoder reads from any frame of the controller's encoder, field by field |
| `Messages.StateRoundTrip` | staubli_robot_driver/src/communication/messages.cpp:53-202 | State: deserialize after serialize gives every field back in single precision and serializing again gives the same 132 bytes; a wrong magic is refused, with only the header overwritten |
| `Messages.CommandRoundTrip` | staubli_robot_driver/src/communication/messages.cpp:227-335 | Command: the same over 55 bytes with the magic, type and payload-size tests |
| `Messages.DiagnosticRoundTrip` | staubli_robot_driver/src/communication/messages.cpp:360-473 | Diagnostics: the same over 74 bytes, into an object whose own header passes the tests |
| `Messages.DiagnosticTestIsStale` | staubli_robot_driver/src/communication/messages.cpp:417-442 | The type and size tests look at the header the object already has: a wrong frame is accepted once, and then everything is refused |
| `Messages.FreshStateSaysNothing` | staubli_robot_driver/src/communication/messages.cpp:31-49 | A new state message has its type and size set, delay 1000, mode 0 and no flag |
| `Messages.StatusRoundTrip` | staubli_robot_driver/src/communication/messages.cpp:160-168 | The six status bits survive packing |
| `Messages.ValidRoundTrip` | staubli_robot_driver/src/communication/messages.cpp:169-181 | The six valid bits survive packing |
| `Messages.HeaderRoundTrip` | staubli_robot_driver/src/communication/protocol.cpp:31-74 | The frame header survives its eight bytes |
| `Messages.StateAtFrame` | staubli_robot_driver/src/communication/messages.cpp:126-202 | A state frame followed by anything reads back as the message in single precision |
| `Messages.CommandAtFrame` | staubli_robot_driver/src/communication/messages.cpp:282-335 | A command frame followed by anything reads back as the message in single precision |
| `Messages.DiagnosticAtFrame` | staubli_robot_driver/src/communication/messages.cpp:417-473 | A diagnostic frame followed by anything reads back as the message |
| `WireFormat.StateFormat` | staubli_robot_driver/src/communication/messages.cpp:126-202 | A state frame is accepted if and only if it has at least 132 bytes and opens with CD AB; each field comes from its own offset; a refused frame changes the header at most |
| `WireFormat.CommandFormat` | staubli_robot_driver/src/communication/messages.cpp:282-335 | A command frame is accepted if and only if it has at least 55 bytes, CD AB, type 2 and size 47; each field comes from its own offset |
| `WireFormat.DiagnosticFormat` | staubli_robot_driver/src/communication/messages.cpp:417-473 | A diagnostic frame is accepted if and only if it has at least 74 bytes and CD AB and the old header passes; each field comes from its own offset |
| `WireFormat.Val3CommandFormat` | staubli_robot_driver/val3/userapp/ros2_server/Serialization/decodeRobotCommandMsg.pgx:28-108 | The controller accepts a command frame if and only if it opens with CD AB, version 1 and type 2, whatever its size field; each field comes from its own offset |
| `WireFormat.Val3StateFormat` | staubli_robot_driver/val3/userapp/ros2_server/Serialization/encodeRobotStateMsg.pgx:30-217 | The controller's encoder fails if and only if the message is uninitialised, of another type or size, or has a negative number; otherwise force values go to byte 90 and the last 30 bytes stay |
| `WireFormat.FlagMasks` | staubli_robot_driver/include/staubli_robot_driver/types.hpp:85-105 | The C++ flag words weigh each flag by its mask |
| `WireFormat.Val3FlagMasks` | staubli_robot_driver/val3/userapp/ros2_server/Serialization/encodeRobotStateMsg.pgx:62-114 | The controller's flag words weigh each flag by the value it ORs in |
| `WireFormat.FlagsRead` | staubli_robot_driver/src/communication/messages.cpp:158-181 | Each flag read is the bit of its mask |
| `WireFormat.LowByteFirst` | staubli_robot_driver/include/staubli_robot_driver/communication/serialization.hpp:60-70 | Words of two and four bytes travel with the low byte first |
| `MessageObjects.SerializeHeader` | staubli_robot_driver/src/communication/protocol.cpp:31-48 | The header is written to the first eight bytes and the rest of the buffer is untouched |
| `MessageObjects.DeserializeHeader` | staubli_robot_driver/src/communication/protocol.cpp:50-74 | The header fields are overwritten before the magic test decides |
| `MessageObjects.RobotStateMessage.Serialize` | staubli_robot_driver/src/communication/messages.cpp:53-124 | Exactly the 132 specified bytes are written, the rest of a longer buffer is untouched, and a short buffer is refused |
| `MessageObjects.RobotStateMessage.Deserialize` | staubli_robot_driver/src/communication/messages.cpp:126-202 | The message object after reading, accepted or not, is the specified one |
| `MessageObjects.RobotCommandMessage.Serialize` | staubli_robot_driver/src/communication/messages.cpp:227-280 | Exactly the 55 specified bytes are written when the header passes, the rest untouched |
| `MessageObjects.RobotCommandMessage.Deserialize` | staubli_robot_driver/src/communication/messages.cpp:282-335 | The message object after reading, accepted or not, is the specified one |
| `MessageObjects.DiagnosticDataMessage.Serialize` | staubli_robot_driver/src/communication/messages.cpp:360-415 | The 74 specified bytes; the header is already in the buffer when its own tests fail |
| `MessageObjects.DiagnosticDataMessage.Deserialize` | staubli_robot_driver/src/communication/messages.cpp:417-473 | The message object after reading, accepted or not, is the specified one |
| `Serialization.PutArray` | staubli_robot_driver/include/staubli_robot_driver/communication/serialization.hpp:137-145 | Array serializer: the running offset covers exactly the encoded elements |
| `Serialization.GetArray` | staubli_robot_driver/include/staubli_robot_driver/communication/serialization.hpp:156-164 | Array deserializer: the elements at consecutive offsets |
| `Serialization.PackFlags` | staubli_robot_driver/src/communication/messages.cpp:82-92 | The loop that ORs sixteen flags into a word |
| `Serialization.UnpackFlags` | staubli_robot_driver/src/communication/messages.cpp:186-191 | The loop that tests sixteen bits of a word |
| `Wire.UnpackPack` | staubli_robot_driver/src/communication/messages.cpp:186-191 | Sixteen flags survive packing into a word |
| `Wire.BitOfPack` | staubli_robot_driver/src/communication/messages.cpp:62-92 | Each bit of a packed word is the flag that went in |
| `Wire.FloatsRoundTrip` | staubli_robot_driver/include/staubli_robot_driver/communication/serialization.hpp:72-83 | An array of doubles comes back narrowed to single precision from anywhere in a frame |
| `Wire.EncodeNarrowed` | staubli_robot_driver/include/staubli_robot_driver/communication/serialization.hpp:118-124 | Narrowing first does not change the bytes |
| `Wire.U32RoundTrip` | staubli_robot_driver/include/staubli_robot_driver/communication/serialization.hpp:66-70 | Four little-endian bytes give the word back |
| `Wire.LawfulCastsExist` | staubli_robot_driver/include/staubli_robot_driver/communication/serialization.hpp:118-124 | Casts with the one law assumed of them exist |
| `Val3Codec.EncodeHeaderInto` | staubli_robot_driver/val3/userapp/ros2_server/Serialization/encodeHeader.pgx:28-70 | The header encoder in place, with its range and size guards, and the number repeated in the payload slot |
| `Val3Codec.EncodeRobotStateMsgInto` | staubli_robot_driver/val3/userapp/ros2_server/Serialization/encodeRobotStateMsg.pgx:30-217 | The state encoder in place: the specified 102 bytes, the last 30 stepped over, error flag as specified |
| `Val3Codec.DecodeHeaderFrom` | staubli_robot_driver/val3/userapp/ros2_server/Serialization/decodeHeader.pgx:27-68 | The header decoder: fields assigned even when the magic or version test fails |
| `Val3Codec.DecodeRobotCommandMsgFrom` | staubli_robot_driver/val3/userapp/ros2_server/Serialization/decodeRobotCommandMsg.pgx:28-108 | The command decoder: its own size test is overwritten, a failed one sets only the type to 1 |
| `StateUpdate.UpdateStateInPlace` | staubli_robot_driver/val3/userapp/ros2_server/updateState.pgx:19-110 | All derived fields of the state in place, leaving delay, mode and error bit to the caller |
| `StateUpdate.UpdateArm` | staubli_robot_driver/val3/userapp/ros2_server/updateState.pgx:19-60 | Motion is possible only with power on and no safety stop |
| `Subscriber.LossConservation` | staubli_robot_driver/src/real_time_socket_subscriber.cpp:106-150 | Over any reads after the first, frames counted lost plus reads of new messages equal the advance of the sender plus the number of wraps crossed |
| `Subscriber.LostAcrossOneRead` | staubli_robot_driver/src/real_time_socket_subscriber.cpp:129-141 | One read: the count and the new-message flag make up the advance, plus one across the wrap |
| `Subscriber.LossIsExactUnlessWrapped` | staubli_robot_driver/src/real_time_socket_subscriber.cpp:131-134 | The count is the true number of frames skipped if and only if the numbering did not wrap between |
| `Subscriber.ReadFailsExactly` | staubli_robot_driver/src/real_time_socket_subscriber.cpp:106-119 | A read fails exactly when the box is locked and the caller holds no message with a timestamp |
| `Subscriber.FirstReadNeedsNoMessage` | staubli_robot_driver/src/real_time_socket_subscriber.cpp:106-150 | With the box free a first read succeeds before anything was received |
| `Subscriber.UpdatesExactly` | staubli_robot_driver/src/real_time_socket_subscriber.cpp:87-102 | The callback takes over exactly the datagrams that are deserialized, stamped with their time |
| `Subscriber.ReportsExactly` | staubli_robot_driver/src/real_time_socket_subscriber.cpp:106-150 | A successful read reports the message it goes by, its age, nothing lost the first time, and a new message exactly the first time or when the number differs |
| `Subscriber.RealTimeSocketSubscriber.UpdateMessageInPlace` | staubli_robot_driver/src/real_time_socket_subscriber.cpp:87-102 | The callback replaces the box by a deserialized frame with its time, or leaves it |
| `Subscriber.RealTimeSocketSubscriber.ReadMessageInPlace` | staubli_robot_driver/src/real_time_socket_subscriber.cpp:106-150 | The read computes the specified message, age, loss count, flag and result |
| `DriverState.FreshReads` | staubli_robot_driver/src/robot_driver.cpp:353-383 | After any sequence of connects, disconnects, datagrams and reads, contended or not, a read that succeeds returns what a ROBOT_STATE datagram of one of those calls became when it arrived, less than the timeout ago and with no connect or disconnect since, and its number is echoed from then on |
| `DriverState.ReadsExactly` | staubli_robot_driver/src/robot_driver.cpp:353-383 | A read returns a state if and only if there is a subscriber and the message it goes by (the box, or the cached one when the box is locked) is a ROBOT_STATE younger than the timeout and not a cached one never received; it returns that message and echoes its number |
| `DriverState.ReadsWithin100ms` | staubli_robot_driver/src/robot_driver.cpp:370-375 | After any calls a read succeeds if and only if the message it goes by is a received ROBOT_STATE less than 100 ms old |
| `DriverState.TimeoutIs100ms` | staubli_robot_driver/src/robot_driver.cpp:26-39 | The staleness timeout is 100 ms after any calls |
| `DriverState.ConnectsExactly` | staubli_robot_driver/src/robot_driver.cpp:52-244 | Connecting succeeds if and only if an address is given, an open connection closes, both sockets open, and the last poll returns a state of the protocol's version; a failure leaves both sockets and interfaces down unless no address was given |
| `DriverState.DisconnectsExactly` | staubli_robot_driver/src/robot_driver.cpp:246-291 | Disconnecting takes sockets, interfaces, number and type down and keeps the rest of the cached state |
| `DriverState.SendsExactly` | staubli_robot_driver/src/communication/udp_socket_impl.hpp:197-229 | Sending returns true if and only if the socket is connected and does not refuse; the frame goes out if and only if it is delivered |
| `DriverState.StopCommandIsStop` | staubli_robot_driver/include/staubli_robot_driver/robot_driver_helpers.hpp:30-80 | The stop command carries the last valid number, type 1, zero references and all outputs off |
| `DriverState.EchoIsLastReturned` | staubli_robot_driver/src/robot_driver.cpp:379-381 | The number echoed is that of the latest successful read on this connection, polls of a successful connect included, or 0 |
| `DriverState.AcceptedWasHeard` | staubli_robot_driver/src/real_time_socket_subscriber.cpp:87-102 | Everything the subscriber holds came in one of the calls since the connection began, deserialized as of its arrival |
| `DriverState.AlwaysTraceable` | staubli_robot_driver/src/robot_driver.cpp:445-462 | The traceability invariant holds over every sequence of calls |
| `DriverState.ReadTraceable` | staubli_robot_driver/src/robot_driver.cpp:353-383 | A read keeps traceability; on success the state is one of the accepted frames |
| `DriverState.ConnectTraceable` | staubli_robot_driver/src/robot_driver.cpp:52-244 | A successful connection has returned a state of the protocol's version on it; a failed one leaves the driver unconnected |
| `DriverState.ConnectCases` | staubli_robot_driver/src/robot_driver.cpp:52-244 | A connection attempt ends with the polled subscriber, with none, or untouched |
| `DriverState.Connect` | staubli_robot_driver/src/robot_driver.cpp:52-244 | Sockets, interfaces and flags stay consistent in every outcome |
| `DriverObject.UdpSocket.Connect` | staubli_robot_driver/src/communication/udp_socket_impl.hpp:103-191 | Connecting a connected socket disconnects it first and gives up if that fails; the flag tells whether opening succeeded |
| `DriverObject.UdpSocket.StartReceiveThread` | staubli_robot_driver/src/communication/udp_socket_impl.hpp:272-318 | The receive thread starts only on a connected socket without one |
| `DriverObject.RobotDriver.ConnectTo` | staubli_robot_driver/src/robot_driver.cpp:52-244 | The connect method with its early exits and clean-ups is the specified one; neither interface can refuse construction or be unready there |
| `DriverObject.RobotDriver.DisconnectNow` | staubli_robot_driver/src/robot_driver.cpp:246-291 | Interfaces, then sockets, then data; the stop-thread branches are unreachable |
| `DriverObject.RobotDriver.IsUp` | staubli_robot_driver/src/robot_driver.cpp:293-302 | All six conditions of being connected |
| `DriverObject.RobotDriver.ReadState` | staubli_robot_driver/src/robot_driver.cpp:353-383 | The read method with its four failure exits is the specified one |
| `DriverObject.RobotDriver.ResetDataInPlace` | staubli_robot_driver/src/robot_driver.cpp:445-456 | Number and type are reset; the cached timestamp survives |
| `DriverObject.RobotDriver.WaitForState` | staubli_robot_driver/src/robot_driver.cpp:166-188 | The polling loop: the last poll decides |
| `DriverObject.RobotDriver.SendStopAllCommand` | staubli_robot_driver/src/robot_driver.cpp:304-319 | The stop command prepared from the cached state carries the last valid number |
| `DriverObject.RobotDriver.SendCommand` | staubli_robot_driver/src/robot_driver.cpp:321-351 | A command is sent only by a ready interface |
| `DriverObject.PrepareRobotCommandMessage` | staubli_robot_driver/include/staubli_robot_driver/robot_driver_helpers.hpp:30-80 | The helper overwrites number, type, references and outputs and nothing else |
| `HardwareState.PositionModeIsEarned` | staubli_robot_driver/src/staubli_hardware_interface.cpp:515-622 | Over all call sequences position mode results only from a perform that consumed one accepted, unconsumed prepare of a position interface while the stored state allowed motion without error, with no perform or activation since |
| `HardwareState.ModeStaysKnown` | staubli_robot_driver/src/staubli_hardware_interface.cpp:515-622 | The mode, and any prepared mode, is STOP or JOINT_POSITION after every call sequence |
| `HardwareState.CommandsChangeBy` | staubli_robot_driver/src/staubli_hardware_interface.cpp:578-622 | Apart from a perform, commands change only when a controller writes them, each to its own vector |
| `HardwareState.CallEffects` | staubli_robot_driver/src/staubli_hardware_interface.cpp:515-622 | What each call does to mode and prepared switch, and that the others do nothing |
| `HardwareState.PreparedBy` | staubli_robot_driver/src/staubli_hardware_interface.cpp:571-575 | A prepared switch goes back to one accepted prepare with no prepare or perform since |
| `HardwareState.PerformedBy` | staubli_robot_driver/src/staubli_hardware_interface.cpp:582-622 | Position mode goes back to one perform that consumed a prepared switch |
| `HardwareState.PerformExactly` | staubli_robot_driver/src/staubli_hardware_interface.cpp:578-622 | A perform fails if and only if a prepared position mode meets a state that forbids motion, and then leaves all commands alone; otherwise positions are commanded as measured, velocities and accelerations as zero |
| `HardwareState.UnpreparedStops` | staubli_robot_driver/src/staubli_hardware_interface.cpp:582-586 | A missing or rejected prepare makes perform end in STOP; every perform consumes |
| `HardwareState.FirstMentionDecides` | staubli_robot_driver/src/staubli_hardware_interface.cpp:498-513 | The first interface name that stands for a mode decides |
| `HardwareState.InvalidExactly` | staubli_robot_driver/src/staubli_hardware_interface.cpp:498-513 | INVALID is resolved if and only if the first meaningful name is an acceleration one |
| `HardwareState.ResolvesExactly` | staubli_robot_driver/src/staubli_hardware_interface.cpp:498-513 | Each of the modes is resolved if and only if the text of the first name that mentions one of the four words says so: position if it mentions that, velocity without position, effort without either; STOP if and only if no name mentions any |
| `HardwareState.PreparesExactly` | staubli_robot_driver/src/staubli_hardware_interface.cpp:515-576 | A prepare is rejected if and only if the first meaningful name is of velocity or effort; an accepted one caches position mode or STOP by that name, a rejected one only drops what was cached |
| `HardwareState.VelocityIsRejected` | staubli_robot_driver/src/staubli_hardware_interface.cpp:550-553 | A velocity interface is rejected and the perform after it ends in STOP |
| `HardwareState.MentionsIsInfix` | staubli_robot_driver/src/staubli_hardware_interface.cpp:502-509 | A name mentions a word if and only if it is that word with something before and after |
| `HardwareState.AccelerationFirst` | staubli_robot_driver/src/staubli_hardware_interface.cpp:527-532 | An acceleration interface before a position interface makes an accepted switch to STOP |
| `HardwareState.WriteExactly` | staubli_robot_driver/src/staubli_hardware_interface.cpp:417-496 | A write of a connected driver is OK if and only if neither a stored fault nor a NaN blocks position mode and the socket does not refuse; it hands over the command of its mode, or a stop when blocked, and that goes out if and only if delivered; without a connection it fails and sends nothing |
| `HardwareState.CommandExactly` | staubli_robot_driver/src/staubli_hardware_interface.cpp:436-466 | The command of either mode field by field: number, period, references in degrees or zero, and the outputs in both modes |
| `HardwareState.ReadExactly` | staubli_robot_driver/src/staubli_hardware_interface.cpp:395-415 | A read is OK if and only if the driver is connected and returns a state with positions and velocities; what it stores when OK, and when not |
| `HardwareState.StartsWithoutCommands` | staubli_robot_driver/src/staubli_hardware_interface.cpp:79-97 | A new interface is in STOP with nothing prepared, zero measurements and NaN commands |
| `HardwareState.FaultStopsWrite` | staubli_robot_driver/src/staubli_hardware_interface.cpp:426-434 | In position mode a stored state with error or INVALID makes the write send a stop command and fail |
| `HardwareState.PositionCommandsAreSound` | staubli_robot_driver/src/staubli_hardware_interface.cpp:445-486 | A position command leaves only in position mode with no fault stored, holding the commands in degrees, zeros elsewhere, no NaN, and the output commands as given |
| `HardwareState.StopCommandsAreZero` | staubli_robot_driver/src/staubli_hardware_interface.cpp:443-445 | Every other command is a stop with zero references |
| `HardwareState.SentAsGiven` | staubli_robot_driver/src/staubli_hardware_interface.cpp:488-495 | Whatever reaches the network is the serialized command with the protocol's header and the last valid number |
| `HardwareState.BumplessStart` | staubli_robot_driver/src/staubli_hardware_interface.cpp:607-630 | After an OK read, any calls but reads, a successful perform into position mode, and any calls but new commands, performs or activation, the next accepted write sends exactly the measured degrees for the configured joints and zero for the others |
| `HardwareState.UnreadRun` | staubli_robot_driver/src/staubli_hardware_interface.cpp:624-640 | Only reads change the measured positions |
| `HardwareState.QuietRun` | staubli_robot_driver/src/staubli_hardware_interface.cpp:395-415 | Reads, writes, frames and connections leave position commands and mode alone |
| `HardwareState.GoodReadMeasures` | staubli_robot_driver/src/staubli_hardware_interface.cpp:624-670 | A successful read stores the state returned, its number for echoing, positions and velocities in radians, torques or zeros, and the inputs it carries |
| `HardwareState.HalfTurn` | staubli_robot_driver/src/staubli_hardware_interface.cpp:31-37 | Half a turn in radians is 180 degrees, both ways |
| `HardwareState.SpecialValuesStay` | staubli_robot_driver/src/staubli_hardware_interface.cpp:31-37 | NaN, infinities and the negative zero stay what they are |
| `HardwareState.DegreesRoundTrip` | staubli_robot_driver/src/staubli_hardware_interface.cpp:31-37 | Radians and back give the same degrees |
| `HardwareState.AcceptedWrite` | staubli_robot_driver/src/staubli_hardware_interface.cpp:488-495 | A write that returns OK handed over the command of the current mode |
| `HardwareObject.ResolveMode` | staubli_robot_driver/src/staubli_hardware_interface.cpp:498-513 | The search loop returns the specified mode |
| `HardwareObject.FindNaN` | staubli_robot_driver/src/staubli_hardware_interface.cpp:470-478 | The search loop finds a NaN among the configured joints if and only if there is one |
| `HardwareObject.CopyDegrees` | staubli_robot_driver/src/staubli_hardware_interface.cpp:627-630 | The joint loop copies the first six entries in radians |
| `HardwareObject.Reference` | staubli_robot_driver/src/staubli_hardware_interface.cpp:447-456 | The joint loop fills the references in degrees, zeros elsewhere |
| `HardwareObject.DigitalOutputs` | staubli_robot_driver/src/staubli_hardware_interface.cpp:458-461 | The output loop sets a bit exactly for a command above 0.5 |
| `HardwareObject.StaubliHardwareInterface.UpdateState` | staubli_robot_driver/src/staubli_hardware_interface.cpp:624-670 | The vectors are updated in order; missing positions or velocities stop the update where noticed |
| `HardwareObject.StaubliHardwareInterface.Read` | staubli_robot_driver/src/staubli_hardware_interface.cpp:395-415 | The read method is the specified one |
| `HardwareObject.StaubliHardwareInterface.Write` | staubli_robot_driver/src/staubli_hardware_interface.cpp:417-496 | The write method is the specified one |
| `HardwareObject.StaubliHardwareInterface.MakeCommand` | staubli_robot_driver/src/staubli_hardware_interface.cpp:436-466 | The command of the current mode, or none for an unsupported one |
| `HardwareObject.StaubliHardwareInterface.PrepareCommandModeSwitch` | staubli_robot_driver/src/staubli_hardware_interface.cpp:515-576 | The prepare method is the specified one |
| `HardwareObject.StaubliHardwareInterface.PerformCommandModeSwitch` | staubli_robot_driver/src/staubli_hardware_interface.cpp:578-622 | The perform method is the specified one |
| `HardwareObject.StaubliHardwareInterface.OnActivate` | staubli_robot_driver/src/staubli_hardware_interface.cpp:188-198 | Activation sets STOP and nothing else |
| `HardwareObject.StaubliHardwareInterface.OnCleanup` | staubli_robot_driver/src/staubli_hardware_interface.cpp:200-211 | Clean-up disconnects and nothing else |
| `HardwareObject.StaubliHardwareInterface.OnError` | staubli_robot_driver/src/staubli_hardware_interface.cpp:229-244 | Error handling sends a stop exactly when connected |

## Left out

- HardwareState.Write: for at most six joints; with more, the source's NaN test reads past the six references.
- HardwareObject.FindNaN: for at most six joints, for the same reason.
- HardwareObject.StaubliHardwareInterface.Write: for at most six joints, for the same reason.
- DriverObject.RobotDriver.ConnectTo: the two socket objects exist from construction on, and exceptions of memory or thread creation are not modelled.
- HardwareState.BumplessStart: degrees and radians in exact real arithmetic, not IEEE doubles.
- ProtocolSafety.MovesAnswerOwnFrames: the network carries frames of the two programs only; forged or corrupted datagrams are outside it. They are covered on the controller's side alone, where `ControlInvariants.HeadInvariant` and `ControlRuns.MovesAreSafe` take arbitrary datagrams.
- ControlTask.ControlTask.Run: over a finite number of iterations, since the source's loop has no end.
- SocketRead.UdpSocket.Get: a datagram longer than the array is cut to its size, which is an assumption about the controller's socket function.
- MessageObjects.RobotStateMessage.Serialize: enumerations are bytes; values outside the named ones are kept as they are.
- Sockets, threads, resolving and binding: only the connected and receiving flags are modelled, and each call is one step.
- Logging, throttled messages, pop-ups and the overrun counter: no effect on control.
- Integers of the controller language: unbounded here; the conversions to one and two bytes are taken modulo their size, and every value passed to them is proved to fit.
- The control period and the digital output mask of a command frame on the controller's side: decoded and never used.
- Force and input fields of the controller's state frame beyond byte 102: stepped over by its encoder, so they hold whatever the buffer held.
- `Message` vector wrappers, reading of diagnostic data and firmware checks: thin wrappers or disabled code.
- Parameter parsing, exported interface lists, the supervision copies and shutdown of the hardware interface: they read configuration, hand out pointers, copy fields for display, and send a stop and disconnect.
- TCP, the socket factory, the mock server, scripts, descriptions and launch files: outside the protocol.
