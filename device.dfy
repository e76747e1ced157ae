/** The colour values the editor paints with (Qt's QColor, restricted to RGB). */
module Colors {

  newtype Channel = x: int | 0 <= x < 256

  datatype Color = Rgb(red: Channel, green: Channel, blue: Channel)

  /** Qt::black: the "off" colour of an LED. */
  const Black := Rgb(0, 0, 0)

  /** Qt::green: the colour the picker starts with. */
  const Green := Rgb(0, 255, 0)
}

/**
 * The device handle the editor talks to (libopenrazer::Device). Its queries
 * are fixed for the life of the handle; the two lighting commands are
 * recorded in `trace`, and whether each one succeeds is decided by the
 * oracle `respond`, given the command's position in the trace.
 */
module LibOpenRazer {
  import opened Colors

  datatype DeviceCall =
    | SetKeyRow(row: int, firstColumn: int, lastColumn: int, colours: seq<Color>)
    | SetCustom

  class Device {
    const rows: nat               // getMatrixDimensions()[0]
    const cols: nat               // getMatrixDimensions()[1]
    const deviceType: string      // getDeviceType()
    const keyboardLayout: string  // getKeyboardLayout()
    const name: string            // getDeviceName()
    const respond: (nat, DeviceCall) -> bool
    var trace: seq<DeviceCall>

    constructor (rows: nat, cols: nat, deviceType: string, keyboardLayout: string, name: string,
                 respond: (nat, DeviceCall) -> bool)
      ensures this.rows == rows && this.cols == cols
      ensures this.deviceType == deviceType && this.keyboardLayout == keyboardLayout && this.name == name
      ensures this.respond == respond
      ensures trace == []
    {
      this.rows, this.cols := rows, cols;
      this.deviceType, this.keyboardLayout, this.name := deviceType, keyboardLayout, name;
      this.respond := respond;
      trace := [];
    }

    /** setKeyRow(row, first, last, colours): one command, answered by the oracle. */
    method SetKeyRowCall(row: int, firstColumn: int, lastColumn: int, colours: seq<Color>) returns (ok: bool)
      modifies this
      ensures trace == old(trace) + [SetKeyRow(row, firstColumn, lastColumn, colours)]
      ensures ok == respond(|old(trace)|, SetKeyRow(row, firstColumn, lastColumn, colours))
    {
      ok := respond(|trace|, SetKeyRow(row, firstColumn, lastColumn, colours));
      trace := trace + [SetKeyRow(row, firstColumn, lastColumn, colours)];
    }

    /** setCustom(): switches the device to the custom effect, answered by the oracle. */
    method SetCustomCall() returns (ok: bool)
      modifies this
      ensures trace == old(trace) + [SetCustom]
      ensures ok == respond(|old(trace)|, SetCustom)
    {
      ok := respond(|trace|, SetCustom);
      trace := trace + [SetCustom];
    }
  }
}
