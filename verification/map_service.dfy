/** The robot map service: the latest robot position, the latest house map
    image (kept as Base64 text) and the time of the last position update.
    The clock is not read here: each mutating method receives the current
    time from its caller. */
module MapService {
  import opened Options
  import Base64

  /** A clock reading supplied by the caller; the service only stores it. */
  type Timestamp = int

  /** Robot coordinates in map space, stored exactly as given. */
  datatype Position = Position(x: real, y: real)

  /** A stored map: the Base64 text of the image and when it was stored. */
  datatype MapRecord = MapRecord(image: string, timestamp: Timestamp)

  /** The summary `get_map_state` reports. */
  datatype MapState = MapState(position: Position, hasMap: bool, timestamp: Option<Timestamp>)

  class RobotMapService {
    var currentPosition: Position
    var mapData: Option<MapRecord>
    var updateTimestamp: Option<Timestamp>

    /** The raw image bytes behind the stored map, for specification only. */
    ghost var mapBytes: seq<Base64.Byte>

    /** A stored map always holds the encoding of a non-empty image. */
    ghost predicate Valid()
      reads this
    {
      match mapData
      case None => true
      case Some(m) => mapBytes != [] && m.image == Base64.Encode(mapBytes)
    }

    /** The robot starts at the origin, with no map and no position update. */
    constructor ()
      ensures Valid()
      ensures currentPosition == Position(0.0, 0.0)
      ensures mapData == None && updateTimestamp == None
    {
      currentPosition := Position(0.0, 0.0);
      mapData := None;
      updateTimestamp := None;
      mapBytes := [];
    }

    /** Records a new robot position and the time it arrived; the map is
        left alone. */
    method UpdateRobotPosition(x: real, y: real, now: Timestamp)
      requires Valid()
      modifies this
      ensures Valid()
      ensures currentPosition == Position(x, y)
      ensures updateTimestamp == Some(now)
      ensures mapData == old(mapData) && mapBytes == old(mapBytes)
    {
      currentPosition := Position(x, y);
      updateTimestamp := Some(now);
    }

    /** Stores a new map image as Base64 text, stamped with `now`. Empty
        input is ignored, so a stored map is never cleared. The map carries
        its own timestamp: the position and its timestamp do not change. */
    method SetMapData(bytes: seq<Base64.Byte>, now: Timestamp)
      requires Valid()
      modifies this
      ensures Valid()
      ensures bytes == [] ==> mapData == old(mapData) && mapBytes == old(mapBytes)
      ensures bytes != [] ==> mapData == Some(MapRecord(Base64.Encode(bytes), now)) && mapBytes == bytes
      ensures old(mapData).Some? ==> mapData.Some?
      ensures currentPosition == old(currentPosition)
      ensures updateTimestamp == old(updateTimestamp)
    {
      if bytes != [] {
        mapData := Some(MapRecord(Base64.Encode(bytes), now));
        mapBytes := bytes;
      }
    }

    /** The current position, whether a map is stored, and the time of the
        last position update (none before the first one). */
    function GetMapState(): (r: MapState)
      reads this
      ensures r.position == currentPosition
      ensures r.hasMap <==> mapData.Some?
      ensures r.timestamp == updateTimestamp
    {
      MapState(currentPosition, mapData.Some?, updateTimestamp)
    }

    /** The stored Base64 image text, or none before the first map arrives.
        The text always decodes to the non-empty image that was stored. */
    function GetMapImage(): (r: Option<string>)
      requires Valid()
      reads this
      ensures r.None? <==> mapData.None?
      ensures r.Some? <==> GetMapState().hasMap
      ensures r.Some? ==> r.value == mapData.value.image
      ensures r.Some? ==> mapBytes != [] && Base64.Decode(r.value) == Some(mapBytes)
      ensures r.Some? ==> |r.value| == 4 * ((|mapBytes| + 2) / 3) && |r.value| > 0
    {
      match mapData
      case None => None
      case Some(m) =>
        Base64.RoundTrip(mapBytes);
        Base64.EncodeLength(mapBytes);
        Some(m.image)
    }
  }
}
