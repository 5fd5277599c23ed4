# Verification of the ESP32 drivers

A Dafny model of the SPI master driver (`esp32/esp32spi.c`) and of three companions: the bus object that
caches its clock divider, the I2C command-list builder, and the GPIO interrupt dispatcher. `dafny verify
dfyconfig.toml` checks everything.

## What is modelled

- `clock.dfy`, `clock_properties.dfy`: the divider register with its bit fields, the nested search that fills
  it (a method with the source's two loops, its early returns, its clamping and its `int32_t` conversions),
  and what it achieves. `CPU_CLK_FREQ` is a parameter between 2^19 and 2^31; `SPI_CLK_EQU_SYSCLK` is taken to
  set only the top bit.
- `wire.dfy`: words, bytes, and the bits that travel, in either bit order.
- `scalars.dfy`: the byte swaps of the driver and what they mean on the wire.
- `device.dfy`: the controller registers, one access at a time, and the lock discipline of a stream of accesses.
- `spi.dfy`: class `Spi`, one bus with its registers, FIFO array and mutex. Each method is a driver function
  with the source's loops. A ghost `log` holds the accesses since the lock was last taken and a ghost `past`
  those before; `Valid()` says that the state is what replaying the log gives from wherever it started.
  Methods inside a session promise `Within()`. Methods that lock for themselves promise `Balanced()`: from any
  state, their accesses are one whole call, `IsCall`, which takes the lock first, obeys the discipline and has
  given the lock back.
- `numbers.dfy`: what every arrangement of bytes and bits means in terms of shifts alone, for every width and
  length, also where the driver sends something else than the number.
- `agreement.dfy`: pairs of driver functions that must put the same bits on the wire.
- `sessions.dfy`: any number of tasks sharing a bus, in any interleaving, cut anywhere.
- `orders.dfy`, `scalar_calls.dfy`: the Word and Long calls, which read the bit order outside the lock: what a
  number arranged for one order looks like in the other, and the runs that contain such calls.
- `calls.dfy`, `settings.dfy`: the setters, transfers and transactions as values, run on a bus; the configuration over any series.
- `tasks.dfy`: a task that makes any series of calls while others change the controller around each of them:
  its accesses are those that the theorems of `sessions.dfy` and `scalar_calls.dfy` ask for.
- `spibus.dfy`, `i2c.dfy`, `gpio.dfy`: the companions.

The one hardware assumption is `SpiDevice.Command`: `cmd.usr = 1; while(cmd.usr);` is one step that sends the
first `mosi_dbitlen + 1` bits of the FIFO, byte 0 of word 0 first, each byte in the order of the write bit
order, and replaces the first `miso_dbitlen + 1` bits by what the other end answered. The other end is any
function from what it has been sent so far to its next bit.

## What turned out not to hold

- The search never tries n = 0. The result is the best over those registers too exactly when the closest of
  them needs a prescaler past 13 bits or gives a frequency that the search can reach:
  `BestOverUndividedExactly`. For every clock some request fails that: `UndividedRegistersAreMissed`.
- Asking for the frequency one got gives the same frequency always, but the same register exactly from the
  slowest divider up: `RegisterIsFixedExactly`.
- The bus is faster than asked exactly below the slowest divider: `NeverFasterThanAsked`.
- Most significant bit first, `spiTransferBits` sends every number and reads every answer correctly exactly at
  widths 16, 24 and 32: `BitsSentExactly`, `BitsAnsweredExactly`. What it sends and reads at the others is
  `BitsSentAre` and `BitsReturnedAre`; up to 8 bits it sends zeros, since it swaps all four bytes:
  `ShortNumbersAreLost`.
- Most significant bit first, `spiWritePixelsNL` is right exactly unless there are three bytes over at the end
  that are not all zero: `PixelsSentExactly`.
- The Word and Long calls read the bit order outside the lock. A write is serial exactly when the order read is
  the one in force when it has the lock, or the bytes of the number read the same backwards, or every byte
  reads the same in both bit orders: `WritesAreSerialExactly`. A transfer is serial exactly when the number sent
  and the number answered, decoded in the order read after the unlock, are both `Harmless` for some one order:
  `TransfersAreSerialExactly`. Runs of one such call and one change of order, from either order to the other,
  that are not serial exist for every other number written (`WriteCallInterleaved`), and for transfers with the
  change before the lock (`TransferCallInterleaved`) and after the unlock (`TransferCallReread`), each with its
  exact condition.
- The I2C list can be read back exactly when addresses have 7 bits and no read is empty: `RoundTrip`. An empty
  read stores a byte just before its buffer: `ReadRule`.
- `detachIrqHandler` leaves the handler in the table: `RunThenInterrupt`.
- `esp32spi.h` names the second parameter of `spiStartBus` a frequency; the code takes a clock divider, and the
  model follows the code.

## Model

| member | source | states |
|---|---|---|
| SpiClock.Fields | esp32/esp32spi.c:1039-1048 | the bit fields are in range and put together again give the register value |
| SpiClock.FieldsOfValue | esp32/esp32spi.c:1039-1048 | encoding and then decoding any fields gives them back |
| SpiClock.MinFreqValue | esp32/esp32spi.c:1065-1066 | the low-end constant is the slowest divider of all, and positive |
| SpiClock.CandidatePre | esp32/esp32spi.c:1083-1091 | the int32_t value of a candidate is q - 1 + v (for a quotient of 0 the unsigned value wraps and the conversion undoes it), and its fields fit |
| SpiClock.CandidatesCover | esp32/esp32spi.c:1083-1103 | for each n, two of the four candidates do as well as any of the 8192 prescalers, clamping included |
| SpiClock.SearchSucceeds | esp32/esp32spi.c:1072-1073 | some candidate never overshoots, so the initial zero register is never returned |
| SpiClock.Search | esp32/esp32spi.c:1071-1109 | the nested loops keep the first candidate that comes closest from below, and there always is one |
| SpiClock.SpiFrequencyToClockDiv | esp32/esp32spi.c:1058-1110 | the whole function, both early returns included, computes FrequencyToClockDiv |
| SpiClockProperties.SearchRefinesBruteForce | esp32/esp32spi.c:1071-1109 | the decoded result is the largest frequency over all n in 1..63 and 13-bit prescalers that is at most the one asked |
| SpiClockProperties.NeverFasterThanAsked | esp32/esp32spi.c:1058-1110 | for all 32-bit requests, the result is at most the request if and only if the request is at least the slowest divider |
| SpiClockProperties.NeverSlowerThanHalf | esp32/esp32spi.c:1071-1109 | inside the range, the result is between half the request and the request |
| SpiClockProperties.AchievedIsMonotone | esp32/esp32spi.c:1052-1110 | asking for more never gives less, across the search and both early returns |
| SpiClockProperties.MetExactly | esp32/esp32spi.c:1052-1110 | a request is met exactly if and only if it is the CPU clock or some divider gives it |
| SpiClockProperties.AchievedIsIdempotent | esp32/esp32spi.c:1052-1110 | asking for the frequency one got gives it again |
| SpiClockProperties.RegisterIsFixedExactly | esp32/esp32spi.c:1058-1110 | it gives the same register too, if and only if the request is at least the slowest divider |
| SpiClockProperties.RegisterIs | esp32/esp32spi.c:1058-1110 | the register returned as a number, for every request: 0x80000000 from the CPU clock up, 0x7FFFF000 below the slowest divider, and between them prescaler, divider and half the divider in their bit positions, for the first divider and prescaler that come closest from below |
| SpiClockProperties.BypassedExactly | esp32/esp32spi.c:1060-1063 | the bit that bypasses the divider is set exactly from the CPU clock up |
| SpiClockProperties.BestOverUndividedExactly | esp32/esp32spi.c:1071-1109 | the result is at least every frequency of n = 0 that does not overshoot, if and only if the closest of those needs a prescaler past 13 bits or can be reached by the search |
| SpiClockProperties.UndividedRegistersAreMissed | esp32/esp32spi.c:1071-1075 | for every clock some request fails that: n = 0 meets it and the search misses |
| Wire.UnbitsOfBits | esp32/esp32spi.c:385-402 | bytes sent in a bit order and received in the same order are the same bytes |
| Wire.BitsOfUnbits | esp32/esp32spi.c:385-402 | every whole-byte bit stream is the stream of the bytes received from it |
| Wire.OnesAreOnes | esp32/esp32spi.c:664-668 | without data only ones go out, in either order |
| SpiNumbers.BytesAre | esp32/esp32spi.c:550-568 | byte i of a word is its bits 8i to 8i + 7 |
| SpiNumbers.NumberBitIs | esp32/esp32spi.c:550-568 | bit j of a number is what shifting right by j leaves at the low end |
| SpiNumbers.ScalarsAreNumbers | esp32/esp32spi.c:520-646 | bytes, 16-bit and 32-bit numbers go out from bit 0 up, or from the top bit down, by the bit order |
| SpiDevice.WholeByteCommand | esp32/esp32spi.c:670-687 | a command of n bytes sends the first n bytes of the FIFO and leaves the n bytes received there, the rest kept |
| SpiDevice.OneWordCommand | esp32/esp32spi.c:972-977 | a command of n bits sends the first n bits of word 0 and replaces exactly the bits answered |
| SpiDriver.Spi.LoadFifo | esp32/esp32spi.c:673-675 | the FIFO starts with the words given, which the session counts as its own |
| SpiDriver.Spi.UnloadFifo | esp32/esp32spi.c:682-684 | the words read are those in the FIFO |
| SpiDriver.Spi.ExchangeBytes | esp32/esp32spi.c:670-684 | length registers, load, run: sends n bytes, and the FIFO holds the answer and then the unsent padding |
| SpiDriver.Spi.TransferChunk | esp32/esp32spi.c:648-687 | one command of at most 64 bytes, more counting as 64: data or 0xFF out, answer in its place in out, nothing else written |
| SpiDriver.Spi.TransferBytes | esp32/esp32spi.c:689-711 | for every size the wire carries exactly the original data (or all ones without data), out gets exactly the answer and nothing beyond it, also when out is data |
| SpiDriver.Spi.TransferBytesNL | esp32/esp32spi.c:905-948 | the same for word buffers: only the words touched are written, and padding comes back as it was sent, also in place |
| SpiDriver.Spi.WriteNL | esp32/esp32spi.c:879-903 | the wire carries exactly the first len bytes of the word buffer |
| SpiDriver.Spi.WritePixelsNL | esp32/esp32spi.c:992-1030 | the chunks add up to the pixel arrangement of the whole buffer |
| SpiDriver.Spi.Write | esp32/esp32spi.c:477-495 | at most 16 words, sent whole |
| SpiDriver.Spi.Transfer | esp32/esp32spi.c:497-518 | at most 16 words, sent and replaced by the answer, the rest of the buffer kept |
| SpiDriver.Spi.WriteByte | esp32/esp32spi.c:520-532 | the byte on the wire, between lock and unlock |
| SpiDriver.Spi.TransferByte | esp32/esp32spi.c:534-548 | the byte on the wire, and the byte answered |
| SpiDriver.Spi.WriteWord | esp32/esp32spi.c:570-585 | big-endian when most significant bit first, little-endian otherwise; the accesses are the read of the order and then one whole locked call |
| SpiDriver.Spi.TransferWord | esp32/esp32spi.c:587-607 | the same, and the answer decoded in the same order |
| SpiDriver.Spi.WriteLong | esp32/esp32spi.c:609-624 | the same for 32 bits |
| SpiDriver.Spi.TransferLong | esp32/esp32spi.c:626-646 | the same for 32 bits, with the answer |
| SpiDriver.Spi.WriteByteNL | esp32/esp32spi.c:783-793 | as WriteByte, without touching the lock |
| SpiDriver.Spi.TransferByteNL | esp32/esp32spi.c:795-807 | as TransferByte, without touching the lock |
| SpiDriver.Spi.WriteShortNL | esp32/esp32spi.c:809-822 | as WriteWord on the wire, and within the session |
| SpiDriver.Spi.TransferShortNL | esp32/esp32spi.c:824-842 | as TransferWord on the wire, and within the session |
| SpiDriver.Spi.WriteLongNL | esp32/esp32spi.c:844-857 | as WriteLong on the wire, and within the session |
| SpiDriver.Spi.TransferLongNL | esp32/esp32spi.c:859-877 | as TransferLong on the wire, and within the session |
| SpiDriver.Spi.TransferBitsNL | esp32/esp32spi.c:950-990 | the first bits of the arranged word go out, and the number read back comes from the answer; more than 32 bits count as 32 |
| SpiDriver.Spi.TransferBits | esp32/esp32spi.c:713-721 | the same between lock and unlock |
| SpiWords.SwapBytes | esp32/esp32spi.c:727-730 | what each swap does to each byte |
| SpiWords.ScalarBytes | esp32/esp32spi.c:809-877 | a scalar loaded as the driver does has its bytes in the order of the bit order |
| SpiWords.ScalarAnswers | esp32/esp32spi.c:824-877 | and so does the value decoded from an answer |
| SpiWords.MaskedBit | esp32/esp32spi.c:960-961 | the mask keeps exactly the low bits |
| SpiWords.BitsSentExactly | esp32/esp32spi.c:956-975 | every number goes out bit by bit as it should if and only if least significant bit first or the width is 16, 24 or 32 |
| SpiNumbers.BitsSentAre | esp32/esp32spi.c:956-975 | which bit of the number each bit on the wire is, for every width and order |
| SpiNumbers.BitsReturnedAre | esp32/esp32spi.c:956-989 | which bit of the answer, or of the word loaded, each bit read back is, for every width and combination of orders |
| SpiWords.ShortNumbersAreLost | esp32/esp32spi.c:956-975 | most significant bit first, up to 8 bits, all zeros go out whatever the number |
| SpiWords.BitsAnswered | esp32/esp32spi.c:977-989 | for the widths handled, the value read back is the number answered, and has no other bits |
| SpiWords.BitsAnsweredExactly | esp32/esp32spi.c:956-989 | every answer is read back as the number received if and only if least significant bit first or the width is 16, 24 or 32 |
| SpiWords.BitsAgreeWithScalars | esp32/esp32spi.c:809-990 | the bit-count call loads and decodes 16 and 32 bits as the Short and Long calls do |
| SpiWords.PixelsSentExactly | esp32/esp32spi.c:1001-1030 | most significant bit first, pixels go out high byte first for every length, if and only if there are not three bytes over that are not all zero |
| SpiNumbers.PixelsSentAre | esp32/esp32spi.c:1001-1030 | what goes out of a pixel buffer of every length, most significant bit first: three bytes over are the first of them and two zeros |
| SpiWords.PixelChunk | esp32/esp32spi.c:1001-1029 | arranging pixels chunk by chunk is arranging them at once |
| SpiAgreement.WordChunksRefineByteChunks | esp32/esp32spi.c:648-948 | word-chunked and byte-chunked transfers send the same bits and return the same bytes, for every length, with or without data and output |
| SpiAgreement.PixelsAreWordsLsbFirst | esp32/esp32spi.c:879-1030 | least significant bit first, pixel writes are plain writes |
| SpiAgreement.PixelsHighByteFirstOnWire | esp32/esp32spi.c:992-1030 | most significant bit first, every even length goes out a pixel at a time, high byte first |
| SpiAgreement.NumbersOnWire | esp32/esp32spi.c:713-990 | where the width is handled, the wire carries the number and the value returned is the number answered |
| SpiAgreement.AnyWidthOnWire | esp32/esp32spi.c:713-990 | for every width, what spiTransferBits sends and reads back on a bus, bit by bit |
| SpiAgreement.PixelsOnWire | esp32/esp32spi.c:992-1030 | for every length and either order, what spiWritePixelsNL sends on a bus |
| SpiAgreement.WriteByteIsLocked | esp32/esp32spi.c:520-793 | on equal buses, spiWriteByte does what spiWriteByteNL does in a transaction |
| SpiAgreement.TransferByteIsLocked | esp32/esp32spi.c:534-807 | the same for spiTransferByte and spiTransferByteNL, with equal results |
| SpiAgreement.WriteWordIsLocked | esp32/esp32spi.c:570-822 | the same for spiWriteWord and spiWriteShortNL |
| SpiAgreement.TransferWordIsLocked | esp32/esp32spi.c:587-842 | the same for spiTransferWord and spiTransferShortNL, with equal results |
| SpiAgreement.WriteLongIsLocked | esp32/esp32spi.c:609-857 | the same for spiWriteLong and spiWriteLongNL |
| SpiAgreement.TransferLongIsLocked | esp32/esp32spi.c:626-877 | the same for spiTransferLong and spiTransferLongNL, with equal results |
| SpiAgreement.SixteenBitsAreShort | esp32/esp32spi.c:713-990 | spiTransferBits at 16 bits sends and returns what spiTransferShortNL does, in either bit order |
| SpiAgreement.ThirtyTwoBitsAreLong | esp32/esp32spi.c:713-990 | the same at 32 bits for spiTransferLongNL |
| SpiDriver.Spi.GetDataMode | esp32/esp32spi.c:333-350 | the mode that the two edge registers stand for |
| SpiDriver.Spi.GetBitOrder | esp32/esp32spi.c:380-386 | the order that the two order registers stand for |
| SpiDriver.Spi.SetClockDiv | esp32/esp32spi.c:323-331 | only the clock register changes |
| SpiDriver.Spi.SetDataMode | esp32/esp32spi.c:352-378 | only the edge registers change, by mode number; unknown modes are mode 0 |
| SpiDriver.Spi.SetBitOrder | esp32/esp32spi.c:388-402 | only the order registers change: 0 is least significant bit first, 1 most significant, others change nothing; the accesses are those of the order switch between lock and unlock |
| SpiDriver.Spi.Transaction | esp32/esp32spi.c:732-765 | the registers of the three setters, with the lock kept |
| SpiDriver.Spi.SimpleTransaction | esp32/esp32spi.c:767-773 | only the lock is taken |
| SpiDriver.Spi.EndTransaction | esp32/esp32spi.c:775-781 | only the lock is given back; what was done since it was taken is one whole call |
| SpiDriver.Spi.StopBus | esp32/esp32spi.c:404-420 | every register it names is zero, the configuration included, and no command can run |
| SpiDriver.Spi.StartBus | esp32/esp32spi.c:422-467 | fails exactly when there is no mutex; otherwise the clock, edge and order registers are what was asked, all three full-duplex bits are set, the FIFO is zero, the lock free |
| SpiCalls.RunBracket | esp32/esp32spi.c:732-1030 | a transaction, simple or not, with any series of calls inside it, in every shape of buffers, is one whole locked call from any state, and sends what its calls send |
| SpiCalls.RunCall | esp32/esp32spi.c:315-1030 | every setter, transfer and transaction, in every shape of buffers (in place, apart, without data, without output, neither), is one whole locked call from any state, or one of the four that read the order outside; the configuration it leaves and the bits it sends |
| SpiSettings.RunShows | esp32/esp32spi.c:315-467 | over every series of calls each part of the configuration is what was last set, and the two order registers go on agreeing |
| SpiSettings.RunCalls | esp32/esp32spi.c:315-781 | any series of calls on a bus, transfers and transactions among them, leaves the configuration of the previous row, and sends what each call sends from the configuration before it |
| SpiSettings.GettersReturnLastSet | esp32/esp32spi.c:315-467 | after spiStartBus and any series of calls on a bus, the getters return what was last set |
| SpiSettings.TransactionIsThreeSetters | esp32/esp32spi.c:732-765 | of two equal buses, one after a transaction and one after the three setters, in either order, have equal registers, FIFO and wire, with the lock held on one side |
| SpiSessions.HolderHolds | esp32/esp32spi.c:80-82 | in every interleaving, a task believes it holds the lock exactly when it does |
| SpiSessions.HolderHasSetUp | esp32/esp32spi.c:477-548 | while a task holds the lock, lengths and loaded words in the controller are those it set itself |
| SpiSessions.FiredBitsAreOwn | esp32/esp32spi.c:477-548 | every command sends only words loaded and lengths set by its own task in the same session |
| SpiSessions.RunsAreSerial | esp32/esp32spi.c:477-781 | every interleaving is whole sessions of single tasks, one after the other, the last perhaps open |
| SpiSessions.WireIsSerial | esp32/esp32spi.c:477-781 | the wire is the concatenation of what each session sends by its own accesses from the bit order it found |
| SpiSessions.SessionRunsAlone | esp32/esp32spi.c:477-781 | in any run, what a session does to the controller, the words it unloads and the bit orders it reads are what its own accesses do and read alone, from the state it found |
| SpiSessions.LogsAreDisciplined | esp32/esp32spi.c:477-781 | if every task's own accesses are unbroken, any interleaving is disciplined |
| SpiSessions.CallsAreUnbroken | esp32/esp32spi.c:477-781 | whole calls one after the other, and part of one more, are unbroken whatever the bus did between them |
| SpiSessions.DriverCallsAreSerializable | esp32/esp32spi.c:477-781 | so any interleaving of tasks that make whole calls, cut anywhere, is serial, and so is the wire |
| SpiTasks.RunTask | esp32/esp32spi.c:315-1030 | a task that makes any series of calls, whatever others leave in the controller around each, makes the accesses of its calls one after the other: each, replayed from the state it found, sends what the call is to send; cut anywhere they are whole calls and part of one, with Word and Long calls but for their reads of the order |
| SpiOrders.SentAsExactly | esp32/esp32spi.c:570-646 | bytes arranged for one order and sent in another look as in order o, if and only if all was order o, or the bytes, each byte, or the whole number read the same backwards |
| SpiOrders.AnsweredAsExactly | esp32/esp32spi.c:587-646 | the same for an answer received in one order and decoded in another |
| SpiScalarCalls.LooseRunIsSerial | esp32/esp32spi.c:477-781 | any interleaving with Word and Long calls too is serial on the wire, call by locked call |
| SpiScalarCalls.WriteCallInterleaved | esp32/esp32spi.c:388-646 | for every number a run, from either order to the other, that mixes the byte order of the old with the bit order of the new; it is one of the two serial results exactly for the numbers that read the same backwards as bytes or byte by byte |
| SpiScalarCalls.TransferCallInterleaved | esp32/esp32spi.c:388-646 | for every number a run of a transfer and a change of order before its lock, with its bits and answer; one of the two serial results exactly when the bytes sent read the same backwards, or each of them does and the whole answer does |
| SpiScalarCalls.TransferCallReread | esp32/esp32spi.c:388-646 | the same with the change between the unlock and the last read, with the roles of number and answer exchanged |
| SpiTasks.WritesAreSerialExactly | esp32/esp32spi.c:570-624 | in any run, spiWriteWord and spiWriteLong send the number arranged for the order read, in the order found, and that is what they send in some serial order if and only if the two orders are the same, or the number reads the same backwards as bytes or byte by byte |
| SpiTasks.TransfersAreSerialExactly | esp32/esp32spi.c:587-646 | in any run, spiTransferWord and spiTransferLong send and return what they do whole in order o if and only if number and answer are both harmless for o, and are serial if and only if both are for some one order |
| SpiBusObject.SpiBus.constructor | esp32/spibus.cpp:30-39 | starts at 1 000 000 Hz, mode 0, most significant bit first, with the cache coherent; null bus when the start fails |
| SpiBusObject.SpiBus.SetFrequency | esp32/spibus.cpp:49-60 | keeps the cache coherent; the clock register ends as if always written |
| SpiBusObject.SpiBus.Transfer | esp32/spibus.cpp:62-71 | the whole message is on the wire between the two chip-select edges, the answer in the receive buffer |
| SpiBusObject.RunBus | esp32/spibus.cpp:49-71 | over every series of frequency changes and transfers on a bus object, the clock register is the divider of the last request, every message is on the wire in turn, and the bus exceeds that request exactly when it was below the slowest divider |
| I2c.PrepareTransfer | esp32/esp32i2calgorithm.cpp:118-139 | appends the address byte and the data commands of the message: address and direction, then every byte from its place in the buffer, acknowledges checked; moves the index of a read |
| I2c.TransferAll | esp32/esp32i2calgorithm.cpp:89-116 | builds the command list of all messages in order, which does on the bus what they ask for; returns their total count, or an error |
| I2c.TransferOne | esp32/esp32i2calgorithm.cpp:72-87 | builds the list of the one message without repeated start, which does on the bus what it asks for |
| I2c.OneIsVectorOfOne | esp32/esp32i2calgorithm.cpp:72-116 | it is the vector of that one message if and only if no repeated start is asked for |
| I2c.ListPlays | esp32/esp32i2calgorithm.cpp:89-139 | event by event what a list does on the bus: START, address and direction, each byte fetched or stored at its address with its acknowledge, STOP |
| I2c.ParseIs | esp32/esp32i2calgorithm.cpp:89-139 | what reading any list back gives, addresses past 7 bits and empty reads included |
| I2c.RoundTrip | esp32/esp32i2calgorithm.cpp:89-139 | reading the list back gives every address, direction, length and repeated-start flag, if and only if addresses have 7 bits and no read is empty |
| I2c.EndsInStop | esp32/esp32i2calgorithm.cpp:94-104 | the list ends in STOP if and only if the last message asks for no repeated start |
| I2c.StartsAreSound | esp32/esp32i2calgorithm.cpp:94-104 | every later START follows a STOP or a message that asked for a repeated start |
| I2c.TotalIsBytesQueued | esp32/esp32i2calgorithm.cpp:102-116 | the data bytes queued are the total and one more for every empty read, so they are the total if and only if no read is empty |
| I2c.ReadRule | esp32/esp32i2calgorithm.cpp:123-133 | a read fills its buffer without gap or overlap and acknowledges all bytes but the last, if and only if it is not empty |
| Gpio.DueExactly | esp32/esp32gpiochip.cpp:55-74 | exactly the pending pins with a handler are served, once each, in increasing order across the word boundary |
| StatusBits.BitSetIs | esp32/esp32gpiochip.cpp:57-68 | testing against 1 shifted by k asks for bit k |
| Gpio.GpioChip.ReadAndClear | esp32/esp32gpiochip.cpp:50-53 | exactly the bits read are cleared; interrupts latched meanwhile on other pins stay |
| Gpio.GpioChip.ExternalIsr | esp32/esp32gpiochip.cpp:44-75 | the calls made are exactly those due |
| Gpio.GpioChip.AttachIrqHandler | esp32/esp32gpiochip.cpp:142-168 | only the entry and the enable and type registers of the pin change; type 1 for rising, 2 for falling, 3 for both, 0 for none, unchanged for any other edge |
| Gpio.GpioChip.DetachIrqHandler | esp32/esp32gpiochip.cpp:170-179 | the pin is disabled once interrupts are initialized, and the table is kept |
| Gpio.TableHoldsLastAttached | esp32/esp32gpiochip.cpp:142-179 | over every series of calls the table holds what was last attached |
| Gpio.RunTable | esp32/esp32gpiochip.cpp:142-179 | any series of calls on a chip leaves that table, the enable bits and trigger type of every pin that its last calls set, and enables exactly the pins last attached |
| Gpio.RunThenInterrupt | esp32/esp32gpiochip.cpp:44-179 | after any such series on a chip, an interrupt serves exactly the pending pins, once each and in increasing order, each by the handler last attached, detached or not |

## Left out

- Null bus handles: every driver function returns at once for them; here the receiver is never null, except in SpiBus.
- The bus number check of spiStartBus, pin matrix, default pins, slave-select pins and peripheral clock enables: constant tables.
- Spi.WriteWord, Spi.TransferWord, Spi.WriteLong, Spi.TransferLong: the contracts speak of a bus that nobody else changes during the call; SpiTasks says what they do otherwise.
- Spi.TransferBitsNL, Spi.TransferBits: zero bits, where the length register would underflow to 2^24 - 1.
- Spi.Write, Spi.Transfer, Spi.TransferChunk: zero lengths, for the same reason.
- The scratch registers after a transfer (lengths and FIFO): every transfer sets them up again before use.
- Overlapping but different buffers in a transfer, and unaligned word buffers: buffers are whole arrays, equal or distinct.
- Waiting: whether the hardware ever clears cmd.usr, and fairness of the mutex.
- Locks created by two tasks starting one bus at the same time, and starting or stopping a bus that tasks use.
- The 32-bit overflow of the I2C total, and what the slave does; TransferAll takes whether the bus accepted the list.
- I2c messages by name: the class of lwiot-core that holds them is not part of this model; a buffer is an address.
- Handlers that edit the table while the interrupt dispatcher is at work.
- ADC, DAC, PWM, UART, WiFi, watchdog, SPIFFS and system files: thin wrappers over the vendor library.
